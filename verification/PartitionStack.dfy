/** What the two explicit-stack quicksorts share: the three-way partition, and the reading of the
    stack as the intervals that are still unsorted. */
module PartitionStack {
  import opened Permutations

  /** A pending interval lo..hi (inclusive; empty when hi == lo - 1), whose members agree on their
      first d key positions. */
  datatype Interval = Interval(lo: int, hi: int, d: int) {
    function Size(): int { hi - lo + 1 }
  }

  /** The entries lo..hi-1 of f are indices into a key sequence of length n, also after adding d. */
  ghost predicate Indexes(f: seq<int>, lo: int, hi: int, d: int, n: int) {
    && 0 <= lo <= hi <= |f|
    && forall i | lo <= i < hi :: 0 <= f[i] && 0 <= f[i] + d < n
  }

  lemma IndexesAt(f: seq<int>, lo: int, hi: int, d: int, n: int)
    requires Indexes(f, lo, hi, d, n)
    ensures 0 <= lo <= hi <= |f|
    ensures forall i | lo <= i < hi :: 0 <= f[i] && 0 <= f[i] + d < n
  {
  }

  ghost predicate SortedBy(key: seq<int>, f: seq<int>, lo: int, hi: int)
    requires Indexes(f, lo, hi, 0, |key|)
  {
    forall i, j | lo <= i < j < hi :: key[f[i]] <= key[f[j]]
  }

  // ---- the stack as a set of intervals ----

  /** Positions a and c lie in one pending interval. */
  ghost predicate Covered(st: seq<Interval>, a: int, c: int) {
    exists k | 0 <= k < |st| :: st[k].lo <= a && c <= st[k].hi
  }

  ghost predicate Disjoint(st: seq<Interval>) {
    forall k, l | 0 <= k < l < |st| :: Apart(st[k], st[l])
  }

  ghost predicate Apart(x: Interval, y: Interval) {
    x.hi < y.lo || y.hi < x.lo || x.Size() == 0 || y.Size() == 0
  }

  ghost predicate Within(st: seq<Interval>, lo: int, hi: int) {
    forall k | 0 <= k < |st| :: lo <= st[k].lo <= st[k].hi + 1 <= hi
  }

  /** Every pair of positions that is not inside one pending interval is in order. */
  ghost predicate SortedOutside(key: seq<int>, f: seq<int>, st: seq<Interval>, lo: int, hi: int)
    requires Indexes(f, lo, hi, 0, |key|)
  {
    forall a, c | lo <= a < c < hi && !Covered(st, a, c) :: key[f[a]] <= key[f[c]]
  }

  lemma NothingPending(key: seq<int>, f: seq<int>, lo: int, hi: int)
    requires Indexes(f, lo, hi, 0, |key|)
    requires SortedOutside(key, f, [], lo, hi)
    ensures SortedBy(key, f, lo, hi)
  {
    forall a, c | lo <= a < c < hi ensures key[f[a]] <= key[f[c]] {
      assert !Covered([], a, c);
    }
  }

  /** Two positions of which exactly one lies in x are not covered by an interval apart from x. */
  lemma OneInside(st: seq<Interval>, x: Interval, a: int, c: int)
    requires Disjoint(st + [x])
    requires a <= c
    requires x.lo <= a <= x.hi || x.lo <= c <= x.hi
    ensures !Covered(st, a, c)
  {
    forall k | 0 <= k < |st| ensures !(st[k].lo <= a && c <= st[k].hi) {
      assert Apart((st + [x])[k], (st + [x])[|st|]);
    }
  }

  /** Replacing the top interval x by the sub-intervals js keeps the reading of the stack, provided
      x has been rearranged so that only pairs inside one of the js may be out of order. */
  lemma RefineTop(key: seq<int>, f: seq<int>, g: seq<int>, st: seq<Interval>, x: Interval,
                  js: seq<Interval>, lo: int, hi: int)
    requires Indexes(f, lo, hi, 0, |key|) && Indexes(g, lo, hi, 0, |key|)
    requires Disjoint(st + [x]) && Within(st + [x], lo, hi)
    requires SortedOutside(key, f, st + [x], lo, hi)
    requires lo <= x.lo <= x.hi + 1 <= hi
    requires Rearranged(f, g, x.lo, x.hi + 1)
    requires Disjoint(js) && Within(js, x.lo, x.hi + 1)
    requires SortedOutside(key, g, js, x.lo, x.hi + 1)
    ensures Disjoint(st + js) && Within(st + js, lo, hi)
    ensures SortedOutside(key, g, st + js, lo, hi)
  {
    RefineDisjoint(st, x, js);
    forall k | 0 <= k < |st + js| ensures lo <= (st + js)[k].lo <= (st + js)[k].hi + 1 <= hi {
      if k < |st| {
        assert (st + [x])[k] == st[k];
      } else {
        assert (st + js)[k] == js[k - |st|];
      }
    }
    forall a, c | lo <= a < c < hi && !Covered(st + js, a, c) ensures key[g[a]] <= key[g[c]] {
      RefinePair(key, f, g, st, x, js, lo, hi, a, c);
    }
  }

  lemma RefineDisjoint(st: seq<Interval>, x: Interval, js: seq<Interval>)
    requires Disjoint(st + [x]) && Disjoint(js) && Within(js, x.lo, x.hi + 1)
    ensures Disjoint(st + js)
  {
    forall k, l | 0 <= k < l < |st + js| ensures Apart((st + js)[k], (st + js)[l]) {
      if l < |st| {
        assert Apart((st + [x])[k], (st + [x])[l]);
      } else if k < |st| {
        assert Apart((st + [x])[k], (st + [x])[|st|]);
      } else {
        assert Apart(js[k - |st|], js[l - |st|]);
      }
    }
  }

  lemma RefinePair(key: seq<int>, f: seq<int>, g: seq<int>, st: seq<Interval>, x: Interval,
                   js: seq<Interval>, lo: int, hi: int, a: int, c: int)
    requires Indexes(f, lo, hi, 0, |key|) && Indexes(g, lo, hi, 0, |key|)
    requires Disjoint(st + [x])
    requires SortedOutside(key, f, st + [x], lo, hi)
    requires lo <= x.lo <= x.hi + 1 <= hi
    requires Rearranged(f, g, x.lo, x.hi + 1)
    requires SortedOutside(key, g, js, x.lo, x.hi + 1)
    requires lo <= a < c < hi && !Covered(st + js, a, c)
    ensures key[g[a]] <= key[g[c]]
  {
    CoveredAppend(st, js, a, c);
    if x.lo <= a && c <= x.hi {
      assert !Covered(js, a, c);
    } else {
      var a', c' := a, c;
      if x.lo <= a <= x.hi {
        a' := RearrangedMember(f, g, x.lo, x.hi + 1, a);
        OneInside(st, x, a', c);
      } else if a < x.lo {
        assert g[a] == g[..x.lo][a] == f[a];
      } else {
        assert g[a] == g[x.hi + 1..][a - x.hi - 1] == f[a];
      }
      if x.lo <= c <= x.hi {
        c' := RearrangedMember(f, g, x.lo, x.hi + 1, c);
        OneInside(st, x, a, c');
      } else if c < x.lo {
        assert g[c] == g[..x.lo][c] == f[c];
      } else {
        assert g[c] == g[x.hi + 1..][c - x.hi - 1] == f[c];
      }
      assert !Covered([x], a', c');
      CoveredAppend(st, [x], a', c');
      assert !Covered(st + [x], a', c');
    }
  }

  lemma CoveredAppend(s: seq<Interval>, t: seq<Interval>, a: int, c: int)
    ensures Covered(s + t, a, c) <==> Covered(s, a, c) || Covered(t, a, c)
  {
    if Covered(s, a, c) {
      var k :| 0 <= k < |s| && s[k].lo <= a && c <= s[k].hi;
      assert (s + t)[k] == s[k];
    }
    if Covered(t, a, c) {
      var k :| 0 <= k < |t| && t[k].lo <= a && c <= t[k].hi;
      assert (s + t)[|s| + k] == t[k];
    }
  }

  // ---- the three-way partition ----

  lemma RearrangedIndexes(f: seq<int>, g: seq<int>, lo: int, hi: int, d: int, n: int)
    requires Indexes(f, lo, hi, d, n) && Rearranged(f, g, lo, hi)
    ensures Indexes(g, lo, hi, d, n)
  {
    RearrangedAll(f, g, lo, hi, x => 0 <= x && 0 <= x + d < n);
  }

  /** The state of the scan: f rearranges start, and every entry scanned so far stands on its side
      of the pivot, those equal to it at the two ends. */
  ghost predicate Banded(start: seq<int>, f: seq<int>, key: seq<int>, d: int, med: int, lo: int, ltLo: int,
                         unLo: int, unHi: int, gtHi: int, hi: int)
  {
    && Indexes(f, lo, hi + 1, d, |key|)
    && Rearranged(start, f, lo, hi + 1)
    && lo <= ltLo <= unLo <= unHi + 1 && unHi <= gtHi <= hi
    && (forall i | lo <= i < ltLo :: key[f[i] + d] == med)
    && (forall i | ltLo <= i < unLo :: key[f[i] + d] < med)
    && (forall i | unHi < i <= gtHi :: key[f[i] + d] > med)
    && (forall i | gtHi < i <= hi :: key[f[i] + d] == med)
  }

  lemma BandedAt(start: seq<int>, f: seq<int>, key: seq<int>, d: int, med: int, lo: int, ltLo: int,
                 unLo: int, unHi: int, gtHi: int, hi: int)
    requires Banded(start, f, key, d, med, lo, ltLo, unLo, unHi, gtHi, hi)
    ensures 0 <= lo <= ltLo <= unLo <= unHi + 1 && unHi <= gtHi <= hi < |f|
    ensures forall i | lo <= i <= hi :: 0 <= f[i] + d < |key|
  {
  }

  lemma BandedStart(f: seq<int>, key: seq<int>, d: int, med: int, lo: int, hi: int)
    requires Indexes(f, lo, hi + 1, d, |key|) && lo <= hi
    ensures Banded(f, f, key, d, med, lo, lo, lo, hi, hi, hi)
  {
  }

  lemma BandedAllEqual(start: seq<int>, f: seq<int>, key: seq<int>, d: int, med: int, lo: int, ltLo: int,
                       unLo: int, unHi: int, gtHi: int, hi: int)
    requires Banded(start, f, key, d, med, lo, ltLo, unLo, unHi, gtHi, hi) && gtHi < ltLo
    ensures Rearranged(start, f, lo, hi + 1) && Indexes(f, lo, hi + 1, d, |key|)
    ensures forall i | lo <= i <= hi :: key[f[i] + d] == med
  {
  }

  lemma LowEqual(start: seq<int>, f: seq<int>, key: seq<int>, d: int, med: int, lo: int, ltLo: int,
                 unLo: int, unHi: int, gtHi: int, hi: int)
    requires Banded(start, f, key, d, med, lo, ltLo, unLo, unHi, gtHi, hi) && unLo <= unHi
    requires key[f[unLo] + d] == med
    ensures Banded(start, Exchange(f, unLo, ltLo), key, d, med, lo, ltLo + 1, unLo + 1, unHi, gtHi, hi)
  {
    hide Rearranged, Exchange;
    RearrangedExchange(start, f, unLo, ltLo, lo, hi + 1);
    ExchangeAt(f, unLo, ltLo);
  }

  lemma LowLess(start: seq<int>, f: seq<int>, key: seq<int>, d: int, med: int, lo: int, ltLo: int,
                unLo: int, unHi: int, gtHi: int, hi: int)
    requires Banded(start, f, key, d, med, lo, ltLo, unLo, unHi, gtHi, hi) && unLo <= unHi
    requires key[f[unLo] + d] < med
    ensures Banded(start, f, key, d, med, lo, ltLo, unLo + 1, unHi, gtHi, hi)
  {
    hide Rearranged;
  }

  lemma HighEqual(start: seq<int>, f: seq<int>, key: seq<int>, d: int, med: int, lo: int, ltLo: int,
                  unLo: int, unHi: int, gtHi: int, hi: int)
    requires Banded(start, f, key, d, med, lo, ltLo, unLo, unHi, gtHi, hi) && unLo <= unHi
    requires key[f[unHi] + d] == med
    ensures Banded(start, Exchange(f, unHi, gtHi), key, d, med, lo, ltLo, unLo, unHi - 1, gtHi - 1, hi)
  {
    hide Rearranged, Exchange;
    RearrangedExchange(start, f, unHi, gtHi, lo, hi + 1);
    ExchangeAt(f, unHi, gtHi);
  }

  lemma HighGreater(start: seq<int>, f: seq<int>, key: seq<int>, d: int, med: int, lo: int, ltLo: int,
                    unLo: int, unHi: int, gtHi: int, hi: int)
    requires Banded(start, f, key, d, med, lo, ltLo, unLo, unHi, gtHi, hi) && unLo <= unHi
    requires key[f[unHi] + d] > med
    ensures Banded(start, f, key, d, med, lo, ltLo, unLo, unHi - 1, gtHi, hi)
  {
    hide Rearranged;
  }

  lemma ExchangeStep(start: seq<int>, f: seq<int>, key: seq<int>, d: int, med: int, lo: int, ltLo: int,
                     unLo: int, unHi: int, gtHi: int, hi: int)
    requires Banded(start, f, key, d, med, lo, ltLo, unLo, unHi, gtHi, hi) && unLo < unHi
    requires key[f[unLo] + d] > med > key[f[unHi] + d]
    ensures Banded(start, Exchange(f, unLo, unHi), key, d, med, lo, ltLo, unLo + 1, unHi - 1, gtHi, hi)
  {
    hide Rearranged, Exchange;
    RearrangedExchange(start, f, unLo, unHi, lo, hi + 1);
    ExchangeAt(f, unLo, unHi);
  }

  /** fswap and mswap. */
  method Swap(a: array<int>, i: int, j: int)
    requires 0 <= i < a.Length && 0 <= j < a.Length
    modifies a
    ensures a[..] == Exchange(old(a[..]), i, j)
  {
    a[i], a[j] := a[j], a[i];
  }

  /** The scan from the left, up to the first entry greater than the pivot. */
  method ScanUp(a: array<int>, key: seq<int>, d: int, lo: int, hi: int, med: int, ghost start: seq<int>,
                ltLo0: int, unLo0: int, unHi: int, ghost gtHi: int)
    returns (ltLo: int, unLo: int)
    requires Banded(start, a[..], key, d, med, lo, ltLo0, unLo0, unHi, gtHi, hi)
    modifies a
    ensures Banded(start, a[..], key, d, med, lo, ltLo, unLo, unHi, gtHi, hi)
    ensures unLo0 <= unLo
    ensures unLo <= unHi ==> key[a[unLo] + d] > med
  {
    hide Banded;
    unLo, ltLo := unLo0, ltLo0;
    BandedAt(start, a[..], key, d, med, lo, ltLo, unLo, unHi, gtHi, hi);
    while unLo <= unHi
      invariant unLo0 <= unLo <= unHi + 1
      invariant Banded(start, a[..], key, d, med, lo, ltLo, unLo, unHi, gtHi, hi)
      decreases unHi - unLo
    {
      BandedAt(start, a[..], key, d, med, lo, ltLo, unLo, unHi, gtHi, hi);
      var n := key[a[unLo] + d] - med;
      if n == 0 {
        LowEqual(start, a[..], key, d, med, lo, ltLo, unLo, unHi, gtHi, hi);
        Swap(a, unLo, ltLo);
        ltLo, unLo := ltLo + 1, unLo + 1;
        continue;
      }
      if n > 0 { break; }
      LowLess(start, a[..], key, d, med, lo, ltLo, unLo, unHi, gtHi, hi);
      unLo := unLo + 1;
    }
  }

  /** The scan from the right, down to the first entry less than the pivot. */
  method ScanDown(a: array<int>, key: seq<int>, d: int, lo: int, hi: int, med: int, ghost start: seq<int>,
                  ghost ltLo: int, unLo: int, unHi0: int, gtHi0: int)
    returns (unHi: int, gtHi: int)
    requires Banded(start, a[..], key, d, med, lo, ltLo, unLo, unHi0, gtHi0, hi)
    requires unLo <= unHi0 ==> key[a[unLo] + d] > med
    modifies a
    ensures Banded(start, a[..], key, d, med, lo, ltLo, unLo, unHi, gtHi, hi)
    ensures unHi <= unHi0
    ensures unLo <= unHi ==> unLo < unHi && key[a[unLo] + d] > med > key[a[unHi] + d]
  {
    hide Banded;
    unHi, gtHi := unHi0, gtHi0;
    BandedAt(start, a[..], key, d, med, lo, ltLo, unLo, unHi, gtHi, hi);
    while unLo <= unHi
      invariant unLo - 1 <= unHi <= unHi0
      invariant Banded(start, a[..], key, d, med, lo, ltLo, unLo, unHi, gtHi, hi)
      invariant unLo <= unHi ==> unLo < a.Length && 0 <= a[unLo] + d < |key| && key[a[unLo] + d] > med
      decreases unHi - unLo
    {
      BandedAt(start, a[..], key, d, med, lo, ltLo, unLo, unHi, gtHi, hi);
      var n := key[a[unHi] + d] - med;
      if n == 0 {
        HighEqual(start, a[..], key, d, med, lo, ltLo, unLo, unHi, gtHi, hi);
        Swap(a, unHi, gtHi);
        gtHi, unHi := gtHi - 1, unHi - 1;
        continue;
      }
      if n < 0 { break; }
      HighGreater(start, a[..], key, d, med, lo, ltLo, unLo, unHi, gtHi, hi);
      unHi := unHi - 1;
    }
  }

  /** The scan from both ends: entries equal to the pivot collect at the two ends. */
  method Scan(a: array<int>, key: seq<int>, d: int, lo: int, hi: int, med: int)
    returns (ltLo: int, unLo: int, unHi: int, gtHi: int)
    requires Indexes(a[..], lo, hi + 1, d, |key|) && lo <= hi
    modifies a
    ensures Banded(old(a[..]), a[..], key, d, med, lo, ltLo, unLo, unHi, gtHi, hi)
    ensures unHi == unLo - 1
  {
    hide *;
    ghost var start := a[..];
    unLo, ltLo := lo, lo;
    unHi, gtHi := hi, hi;
    BandedStart(start, key, d, med, lo, hi);
    while true
      invariant unLo <= unHi + 1
      invariant Banded(start, a[..], key, d, med, lo, ltLo, unLo, unHi, gtHi, hi)
      decreases unHi - unLo
    {
      ltLo, unLo := ScanUp(a, key, d, lo, hi, med, start, ltLo, unLo, unHi, gtHi);
      unHi, gtHi := ScanDown(a, key, d, lo, hi, med, start, ltLo, unLo, unHi, gtHi);
      BandedAt(start, a[..], key, d, med, lo, ltLo, unLo, unHi, gtHi, hi);
      if unLo > unHi { break; }
      ExchangeStep(start, a[..], key, d, med, lo, ltLo, unLo, unHi, gtHi, hi);
      Swap(a, unLo, unHi);
      unLo, unHi := unLo + 1, unHi - 1;
    }
  }

  /** f with its k entries from p on exchanged with the k entries from q on. */
  ghost function ExchangeRuns(f: seq<int>, p: int, q: int, k: int): (r: seq<int>)
    requires 0 <= p && 0 <= k && p + k <= q && q + k <= |f|
    ensures |r| == |f|
    decreases k
  {
    if k == 0 then f else Exchange(ExchangeRuns(f, p, q, k - 1), p + k - 1, q + k - 1)
  }

  /** Where entry i of the result came from. */
  ghost function ExchangeSource(p: int, q: int, k: int, i: int): int {
    if p <= i < p + k then i + (q - p) else if q <= i < q + k then i - (q - p) else i
  }

  lemma {:induction false} ExchangeRunsAt(f: seq<int>, p: int, q: int, k: int, i: int)
    requires 0 <= p && 0 <= k && p + k <= q && q + k <= |f| && 0 <= i < |f|
    ensures ExchangeRuns(f, p, q, k)[i] == f[ExchangeSource(p, q, k, i)]
    decreases k
  {
    if k > 0 {
      ExchangeRunsAt(f, p, q, k - 1, i);
      ExchangeRunsAt(f, p, q, k - 1, p + k - 1);
      ExchangeRunsAt(f, p, q, k - 1, q + k - 1);
    }
  }

  lemma {:induction false} ExchangeRunsRearranges(f: seq<int>, p: int, q: int, k: int, lo: int, hi: int)
    requires 0 <= lo <= p && 0 <= k && p + k <= q && q + k <= hi <= |f|
    ensures Rearranged(f, ExchangeRuns(f, p, q, k), lo, hi)
    decreases k
  {
    hide Rearranged;
    if k == 0 {
      RearrangedRefl(f, lo, hi);
    } else {
      var g := ExchangeRuns(f, p, q, k - 1);
      ExchangeRunsRearranges(f, p, q, k - 1, lo, hi);
      RearrangedExchange(f, g, p + k - 1, q + k - 1, lo, hi);
    }
  }

  /** fvswap and mvswap. */
  method SwapRuns(a: array<int>, p: int, q: int, k: int)
    requires 0 <= p && 0 <= k && p + k <= q && q + k <= a.Length
    modifies a
    ensures a[..] == ExchangeRuns(old(a[..]), p, q, k)
  {
    var yyp1, yyp2, yyn := p, q, k;
    while yyn > 0
      invariant 0 <= yyn <= k && yyp1 == p + (k - yyn) && yyp2 == q + (k - yyn)
      invariant a[..] == ExchangeRuns(old(a[..]), p, q, k - yyn)
    {
      Swap(a, yyp1, yyp2);
      yyp1, yyp2, yyn := yyp1 + 1, yyp2 + 1, yyn - 1;
    }
  }

  /** Three bands: less than, equal to and greater than the pivot. */
  ghost predicate Split3(start: seq<int>, f: seq<int>, key: seq<int>, d: int, med: int, lo: int, n: int, m: int,
                         hi: int) {
    && Indexes(f, lo, hi + 1, d, |key|)
    && Rearranged(start, f, lo, hi + 1)
    && lo <= n + 1 <= m <= hi + 1
    && (forall i | lo <= i <= n :: key[f[i] + d] < med)
    && (forall i | n < i < m :: key[f[i] + d] == med)
    && (forall i | m <= i <= hi :: key[f[i] + d] > med)
  }

  function Min(x: int, y: int): int { if x < y then x else y }

  ghost function Gathered(f: seq<int>, lo: int, ltLo: int, unLo: int, unHi: int, gtHi: int, hi: int): (g: seq<int>)
    requires 0 <= lo <= ltLo <= unLo && unHi == unLo - 1 && unHi <= gtHi <= hi < |f|
    ensures |g| == |f|
  {
    var n := Min(ltLo - lo, unLo - ltLo);
    var m := Min(hi - gtHi, gtHi - unHi);
    ExchangeRuns(ExchangeRuns(f, lo, unLo - n, n), unLo, hi - m + 1, m)
  }

  lemma GatheredRearranges(f: seq<int>, lo: int, ltLo: int, unLo: int, unHi: int, gtHi: int, hi: int)
    requires 0 <= lo <= ltLo <= unLo && unHi == unLo - 1 && unHi <= gtHi <= hi < |f|
    ensures Rearranged(f, Gathered(f, lo, ltLo, unLo, unHi, gtHi, hi), lo, hi + 1)
  {
    hide Rearranged;
    var n := Min(ltLo - lo, unLo - ltLo);
    var m := Min(hi - gtHi, gtHi - unHi);
    var g1 := ExchangeRuns(f, lo, unLo - n, n);
    var g2 := ExchangeRuns(g1, unLo, hi - m + 1, m);
    ExchangeRunsRearranges(f, lo, unLo - n, n, lo, hi + 1);
    ExchangeRunsRearranges(g1, unLo, hi - m + 1, m, lo, hi + 1);
    RearrangedTrans(f, g1, g2, lo, hi + 1);
  }

  /** Entry i of the gathered sequence comes from the matching band of the scanned one. */
  lemma GatheredSource(f: seq<int>, lo: int, ltLo: int, unLo: int, unHi: int, gtHi: int, hi: int, i: int)
    returns (j: int)
    requires 0 <= lo <= ltLo <= unLo && unHi == unLo - 1 && unHi <= gtHi <= hi < |f| && ltLo <= gtHi + 1
    requires lo <= i <= hi
    ensures lo <= j <= hi && Gathered(f, lo, ltLo, unLo, unHi, gtHi, hi)[i] == f[j]
    ensures i <= lo + unLo - ltLo - 1 ==> ltLo <= j < unLo
    ensures lo + unLo - ltLo - 1 < i < hi - (gtHi - unHi) + 1 ==> j < ltLo || gtHi < j
    ensures hi - (gtHi - unHi) + 1 <= i ==> unHi < j <= gtHi
  {
    var n := Min(ltLo - lo, unLo - ltLo);
    var m := Min(hi - gtHi, gtHi - unHi);
    var g1 := ExchangeRuns(f, lo, unLo - n, n);
    var i1 := ExchangeSource(unLo, hi - m + 1, m, i);
    ExchangeRunsAt(g1, unLo, hi - m + 1, m, i);
    ExchangeRunsAt(f, lo, unLo - n, n, i1);
    j := ExchangeSource(lo, unLo - n, n, i1);
  }

  lemma GatheredBands(start: seq<int>, f: seq<int>, key: seq<int>, d: int, med: int,
                      lo: int, ltLo: int, unLo: int, unHi: int, gtHi: int, hi: int)
    requires Banded(start, f, key, d, med, lo, ltLo, unLo, unHi, gtHi, hi) && unHi == unLo - 1 && ltLo <= gtHi + 1
    ensures Split3(start, Gathered(f, lo, ltLo, unLo, unHi, gtHi, hi), key, d, med,
                   lo, lo + unLo - ltLo - 1, hi - (gtHi - unHi) + 1, hi)
  {
    var g := Gathered(f, lo, ltLo, unLo, unHi, gtHi, hi);
    GatheredRearranges(f, lo, ltLo, unLo, unHi, gtHi, hi);
    RearrangedTrans(start, f, g, lo, hi + 1);
    RearrangedIndexes(f, g, lo, hi + 1, d, |key|);
    hide Rearranged, Gathered;
    forall i | lo <= i <= hi
      ensures i <= lo + unLo - ltLo - 1 ==> key[g[i] + d] < med
      ensures lo + unLo - ltLo - 1 < i < hi - (gtHi - unHi) + 1 ==> key[g[i] + d] == med
      ensures hi - (gtHi - unHi) + 1 <= i ==> key[g[i] + d] > med
    {
      var j := GatheredSource(f, lo, ltLo, unLo, unHi, gtHi, hi, i);
    }
  }

  /** One round of the quicksort: scan, then move the equal entries from the ends to the middle.
      When everything is equal to the pivot, nothing is moved. */
  method Partition3(a: array<int>, key: seq<int>, d: int, lo: int, hi: int, med: int)
    returns (allEqual: bool, n: int, m: int)
    requires Indexes(a[..], lo, hi + 1, d, |key|) && lo <= hi
    modifies a
    ensures allEqual ==> Rearranged(old(a[..]), a[..], lo, hi + 1)
    ensures allEqual ==> Indexes(a[..], lo, hi + 1, d, |key|) && forall i | lo <= i <= hi :: key[a[i] + d] == med
    ensures !allEqual ==> Split3(old(a[..]), a[..], key, d, med, lo, n, m, hi)
  {
    hide Banded, Rearranged, Indexes, Split3;
    ghost var start := a[..];
    var ltLo, unLo, unHi, gtHi := Scan(a, key, d, lo, hi, med);
    BandedAt(start, a[..], key, d, med, lo, ltLo, unLo, unHi, gtHi, hi);
    if gtHi < ltLo {
      BandedAllEqual(start, a[..], key, d, med, lo, ltLo, unLo, unHi, gtHi, hi);
      return true, 0, 0;
    }
    GatheredBands(start, a[..], key, d, med, lo, ltLo, unLo, unHi, gtHi, hi);
    n := Min(ltLo - lo, unLo - ltLo);
    SwapRuns(a, lo, unLo - n, n);
    m := Min(hi - gtHi, gtHi - unHi);
    SwapRuns(a, unLo, hi - m + 1, m);
    return false, lo + unLo - ltLo - 1, hi - (gtHi - unHi) + 1;
  }
}
