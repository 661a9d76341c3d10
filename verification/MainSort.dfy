/** mainSort: radix sort on two bytes, quicksort of small buckets, and the copying scans that sort the
    rest without comparing. */
module MainSort {
  import opened Permutations
  import opened Rotations
  import opened Buckets
  import opened PartitionStack
  import opened MainQuickSort
  import opened CopyScan
  import opened CopyBuckets
  import Bits

  const SETMASK := 0x20_0000
  const MAX_BLOCK := 900000

  /** x & CLEARMASK, and x & SETMASK, for table entries below 2 * SETMASK. */
  function Clear(x: int): int { x % SETMASK }
  predicate IsMarked(x: int) { x / SETMASK == 1 }

  // ---- the table of small buckets ----

  /** ftab holds the start of every small bucket, flagged when the bucket is sorted. */
  ghost predicate TableOk(b: seq<Byte>, ftab: seq<int>, marked: set<int>) {
    && |b| <= MAX_BLOCK && |ftab| == 65537 && 65536 !in marked
    && forall sb | 0 <= sb <= 65536 :: ftab[sb] == S(b, sb) + if sb in marked then SETMASK else 0
  }

  lemma TableRead(b: seq<Byte>, ftab: seq<int>, marked: set<int>, sb: int)
    requires TableOk(b, ftab, marked) && 0 <= sb <= 65536
    ensures Clear(ftab[sb]) == S(b, sb)
    ensures IsMarked(ftab[sb]) <==> sb in marked
    ensures |ftab| == 65537
  {
    hide S;
    StartsBounded(b, sb);
  }

  /** ftab[sb] |= SETMASK. */
  method MarkBucket(ghost b: seq<Byte>, ftab: array<int>, sb: int, ghost marked: set<int>)
    requires TableOk(b, ftab[..], marked) && 0 <= sb < 65536
    modifies ftab
    ensures TableOk(b, ftab[..], marked + {sb})
  {
    hide S;
    TableRead(b, ftab[..], marked, sb);
    if !IsMarked(ftab[sb]) {
      ftab[sb] := ftab[sb] + SETMASK;
    }
  }

  // ---- the initial radix sort ----

  ghost function CountFrom(keys: seq<int>, m: int, c: int): nat
    requires 0 <= m <= |keys|
  {
    multiset(keys[m..])[c]
  }

  lemma CountFromStep(keys: seq<int>, m: int)
    requires 0 <= m < |keys|
    ensures forall c :: CountFrom(keys, m, c) == CountFrom(keys, m + 1, c) + if keys[m] == c then 1 else 0
  {
    assert keys[m..] == [keys[m]] + keys[m + 1..];
  }

  lemma CountFromEnds(keys: seq<int>)
    ensures forall c :: CountFrom(keys, |keys|, c) == 0
    ensures forall c :: CountFrom(keys, 0, c) == multiset(keys)[c]
  {
    assert keys[0..] == keys;
    assert keys[|keys|..] == [];
  }

  /** The first loop: the 2-byte frequency table, and the quadrants of the block proper. The four-fold
      unrolling is undone. */
  method CountKeys(ghost b: seq<Byte>, block: array<Byte>, quadrant: array<int>, ftab: array<int>, nblock: int)
    requires nblock == |b| > 1 && nblock <= block.Length && block[..nblock] == b && nblock <= quadrant.Length
    requires ftab.Length == 65537 && ftab != quadrant && block as object != ftab && block as object != quadrant
    modifies quadrant, ftab
    ensures forall c | 0 <= c <= 65536 :: ftab[c] == multiset(Keys(b))[c]
    ensures forall i | 0 <= i < nblock :: quadrant[i] == 0
  {
    hide CountFrom, Keys;
    ghost var keys := Keys(b);
    KeysSize(b);
    CountFromEnds(keys);
    BlockBytes(b, block[..]);
    var i := 65536;
    while i >= 0
      invariant -1 <= i <= 65536
      invariant forall c | i < c <= 65536 :: ftab[c] == 0
    {
      ftab[i] := 0;
      i := i - 1;
    }
    var j: int := (block[0] as int) * 256;
    i := nblock - 1;
    while i >= 0
      invariant -1 <= i < nblock
      invariant i >= 0 ==> 0 <= j && j / 256 == b[Succ(i, nblock)]
      invariant forall c | 0 <= c <= 65536 :: ftab[c] == CountFrom(keys, i + 1, c)
      invariant forall k | i < k < nblock :: quadrant[k] == 0
    {
      quadrant[i] := 0;
      CountFromStep(keys, i);
      KeyAt(b, i);
      j := j / 256 + (block[i] as int) * 256;
      ftab[j] := ftab[j] + 1;
      i := i - 1;
    }
  }

  lemma KeysSize(b: seq<Byte>)
    ensures |Keys(b)| == |b| && forall i | 0 <= i < |b| :: Keys(b)[i] == Key2(b, i) && 0 <= Keys(b)[i] < 65536
  {
  }

  lemma KeyAt(b: seq<Byte>, i: int)
    requires 0 <= i < |b|
    ensures Keys(b)[i] == b[i] as int * 256 + b[Succ(i, |b|)] && 0 <= Keys(b)[i] < 65536
  {
  }

  lemma BlockBytes(b: seq<Byte>, block: seq<Byte>)
    requires |b| <= |block| && block[..|b|] == b
    ensures forall i | 0 <= i < |b| :: block[i] == b[i]
  {
    forall i | 0 <= i < |b| ensures block[i] == b[i] {
      assert block[i] == block[..|b|][i];
    }
  }

  /** The bytes and quadrants behind the block repeat those at its start. */
  method FillOvershoot(ghost b: seq<Byte>, block: array<Byte>, quadrant: array<int>, nblock: int)
    requires nblock == |b| > BZ_N_OVERSHOOT && block.Length == nblock + BZ_N_OVERSHOOT == quadrant.Length
    requires block[..nblock] == b && block as object != quadrant
    requires forall i | 0 <= i < nblock :: quadrant[i] == 0
    modifies block, quadrant
    ensures Overshot(b, block[..]) && QuadrantsOrder(b, quadrant[..])
    ensures block[..nblock] == b
  {
    BlockBytes(b, block[..]);
    var i := 0;
    while i < BZ_N_OVERSHOOT
      invariant 0 <= i <= BZ_N_OVERSHOOT
      invariant forall k | 0 <= k < nblock :: block[k] == b[k]
      invariant forall k | 0 <= k < nblock + i :: quadrant[k] == 0
      invariant forall k | 0 <= k < i :: block[nblock + k] == b[k]
    {
      block[nblock + i] := block[i];
      quadrant[nblock + i] := 0;
      i := i + 1;
    }
    assert block[..][..nblock] == b;
  }

  /** Running sums. */
  method SumKeys(ghost keys: seq<int>, ftab: array<int>)
    requires ftab.Length == 65537
    requires forall c | 0 <= c <= 65536 :: ftab[c] == multiset(keys)[c]
    modifies ftab
    ensures forall c | 0 <= c <= 65536 :: ftab[c] == Start(keys, c) + Count(keys, |keys|, c)
  {
    hide Start, Count;
    var i := 1;
    StartStep(keys, 0);
    StartZero(keys);
    while i <= 65536
      invariant 1 <= i <= 65537
      invariant forall c | 0 <= c < i :: ftab[c] == Start(keys, c + 1)
      invariant forall c | i <= c <= 65536 :: ftab[c] == multiset(keys)[c]
    {
      StartStep(keys, i);
      ftab[i] := ftab[i] + ftab[i - 1];
      i := i + 1;
    }
    forall c | 0 <= c <= 65536 ensures ftab[c] == Start(keys, c) + Count(keys, |keys|, c) {
      StartStep(keys, c);
      CountAll(keys, c);
    }
  }

  /** The rotations from i on have been placed. */
  ghost predicate Placed(keys: seq<int>, f: seq<int>, i: int) {
    && |f| == |keys| && 0 <= i
    && (forall m | 0 <= m < |keys| :: 0 <= keys[m] < 65536)
    && forall m | i <= m < |keys| :: 0 <= UpPlace(keys, m) < |f| && f[UpPlace(keys, m)] == m
  }

  lemma PlaceOne(keys: seq<int>, f: seq<int>, i: int)
    requires Placed(keys, f, i + 1) && 0 <= i < |keys|
    ensures 0 <= UpPlace(keys, i) < |f|
    ensures Placed(keys, f[UpPlace(keys, i) := i], i)
  {
    hide UpPlace;
    PlacesInBucket(keys, i);
    PlaceInRange(keys, 65536, keys[i], UpPlace(keys, i));
    forall m | i < m < |keys| ensures UpPlace(keys, m) != UpPlace(keys, i) { PlacesDiffer(keys, i, m); }
  }

  lemma AllPlaced(keys: seq<int>, f: seq<int>)
    requires Placed(keys, f, 0)
    ensures Bucketed(keys, f)
  {
    hide UpPlace, Bucketed;
    var place := seq(|keys|, m requires 0 <= m < |keys| => UpPlace(keys, m));
    forall m | 0 <= m < |keys| ensures InBucket(keys, keys[m], place[m]) { PlacesInBucket(keys, m); }
    forall m, m' | 0 <= m < m' < |keys| ensures place[m] != place[m'] { PlacesDiffer(keys, m, m'); }
    PlacedIsBucketed(keys, 65536, place, f);
  }

  /** Every rotation goes to its bucket, from the last rotation down, each bucket filling downwards. */
  method PlaceRotations(ghost b: seq<Byte>, block: array<Byte>, ftab: array<int>, ptr: array<int>, nblock: int)
    requires 1 < nblock == |b| == ptr.Length && nblock <= block.Length && block[..nblock] == b
    requires ftab.Length == 65537 && ftab != ptr && block as object != ftab && block as object != ptr
    requires forall c | 0 <= c <= 65536 :: ftab[c] == Start(Keys(b), c) + Count(Keys(b), nblock, c)
    modifies ftab, ptr
    ensures Bucketed(Keys(b), ptr[..])
    ensures forall c | 0 <= c <= 65536 :: ftab[c] == Start(Keys(b), c)
  {
    hide Keys, Start, Count, Bucketed, Key2, UpPlace, Placed;
    ghost var keys := Keys(b);
    BlockBytes(b, block[..]);
    var s: int := (block[0] as int) * 256;
    var i := nblock - 1;
    NonePlaced(keys, ptr[..]);
    while i >= 0
      invariant -1 <= i < nblock
      invariant i >= 0 ==> 0 <= s && s / 256 == b[Succ(i, nblock)]
      invariant forall c | 0 <= c <= 65536 :: ftab[c] == Start(keys, c) + Count(keys, i + 1, c)
      invariant Placed(keys, ptr[..], i + 1)
    {
      KeyAt(b, i);
      s := s / 256 + (block[i] as int) * 256;
      var j := ftab[s] - 1;
      forall c | 0 <= c <= 65536 { CountStep(keys, i, c); }
      assert j == UpPlace(keys, i) by { UpPlaceIs(keys, i); }
      PlaceOne(keys, ptr[..], i);
      ftab[s] := j;
      ghost var f := ptr[..];
      ptr[j] := i;
      assert ptr[..] == f[j := i];
      i := i - 1;
    }
    AllPlaced(keys, ptr[..]);
    forall c | 0 <= c <= 65536 ensures ftab[c] == Start(keys, c) { CountNone(keys, c); }
  }

  lemma NonePlaced(keys: seq<int>, f: seq<int>)
    requires |f| == |keys| && forall m | 0 <= m < |keys| :: 0 <= keys[m] < 65536
    ensures Placed(keys, f, |keys|)
  {
  }

  lemma UpPlaceIs(keys: seq<int>, i: int)
    requires 0 <= i < |keys| && keys[i] >= 0
    ensures UpPlace(keys, i) == Start(keys, keys[i]) + Count(keys, i, keys[i])
  {
  }

  lemma StartZero(keys: seq<int>)
    ensures Start(keys, 0) == 0
  {
  }

  // ---- the running order ----

  /** BIGFREQ: the size of a big bucket. */
  ghost function BigFreq(b: seq<Byte>, c: int): int
    requires 0 <= c < 256
  {
    S(b, (c + 1) * 256) - S(b, c * 256)
  }

  ghost function BigFreqs(b: seq<Byte>): (r: seq<int>)
    ensures |r| == 256 && forall c | 0 <= c < 256 :: r[c] == BigFreq(b, c)
  {
    seq(256, c requires 0 <= c < 256 => BigFreq(b, c))
  }

  ghost predicate SizesOf(ftab: seq<int>, freqs: seq<int>) {
    && |ftab| == 65537 && |freqs| == 256
    && forall c | 0 <= c < 256 :: freqs[c] == ftab[(c + 1) * 256] - ftab[c * 256]
  }

  lemma SizesKnown(b: seq<Byte>, ftab: seq<int>)
    requires TableOk(b, ftab, {})
    ensures SizesOf(ftab, BigFreqs(b))
  {
  }

  method Bigger(ftab: array<int>, ghost freqs: seq<int>, c: int, c': int) returns (r: bool)
    requires SizesOf(ftab[..], freqs) && 0 <= c < 256 && 0 <= c' < 256
    ensures r <==> freqs[c] > freqs[c']
  {
    r := ftab[(c + 1) * 256] - ftab[c * 256] > ftab[(c' + 1) * 256] - ftab[c' * 256];
  }

  /** Entry i of the running order moves left in strides of h. */
  method InsertBig(ghost freqs: seq<int>, order: array<int>, ftab: array<int>, h: int, i: int)
    requires order.Length == 256 && |freqs| == 256 && SizesOf(ftab[..], freqs) && order != ftab
    requires Indexes(order[..], 0, 256, 0, 256) && 0 < h <= i < 256
    modifies order
    ensures Rearranged(old(order[..]), order[..], 0, 256) && Indexes(order[..], 0, 256, 0, 256)
    ensures h == 1 && SortedBy(freqs, old(order[..]), 0, i) ==> SortedBy(freqs, order[..], 0, i + 1)
  {
    hide SizesOf, Inserting, Rearranged, SortedBy, Exchange;
    ghost var start := order[..];
    ghost var tail := h == 1 && SortedBy(freqs, start, 0, i);
    InsertStart(start, freqs, 0, 255, i, tail);
    var vv := order[i];
    var j := i;
    ghost var w := start;
    while true
      invariant h <= j <= i && 0 <= vv < 256
      invariant |w| == 256 && w[j] == vv
      invariant Inserting(start, w, order[..], freqs, 0, 255, i, j, tail)
      decreases j
    {
      LeftOf(start, w, order[..], freqs, i, j, tail, j - h);
      var left := order[j - h];
      var bigger := Bigger(ftab, freqs, left, vv);
      if !bigger { break; }
      Stride(start, w, order[..], freqs, i, j, tail, h);
      w := Exchange(w, j, j - h);
      order[j] := left;
      j := j - h;
      if j <= h - 1 { break; }
    }
    LeftOf(start, w, order[..], freqs, i, j, tail, j - 1);
    InsertDone(start, w, order[..], freqs, 0, 255, i, j, tail);
    order[j] := vv;
  }

  lemma LeftOf(start: seq<int>, w: seq<int>, f: seq<int>, freqs: seq<int>, i: int, j: int, tail: bool, k: int)
    requires Inserting(start, w, f, freqs, 0, 255, i, j, tail)
    ensures 0 <= j < |f| == |w| && w == f[j := w[j]]
    ensures 0 <= k < j ==> 0 <= f[k] < |freqs| && w[k] == f[k]
  {
    hide Inserting;
    InsertAt(start, w, f, freqs, 0, 255, i, j, tail);
  }

  lemma Stride(start: seq<int>, w: seq<int>, f: seq<int>, freqs: seq<int>, i: int, j: int, tail: bool, h: int)
    requires Inserting(start, w, f, freqs, 0, 255, i, j, tail) && 0 < h <= j < |w| && (tail ==> h == 1)
    requires 0 <= f[j - h] < |freqs| && freqs[f[j - h]] >= freqs[w[j]]
    ensures Inserting(start, Exchange(w, j, j - h), f[j := f[j - h]], freqs, 0, 255, i, j - h, tail)
    ensures |Exchange(w, j, j - h)| == |w| && Exchange(w, j, j - h)[j - h] == w[j]
  {
    hide Inserting, Exchange;
    InsertStep(start, w, f, freqs, 0, 255, i, j, tail, j - h);
    ExchangeAt(w, j, j - h);
  }

  lemma FreqsKnown(b: seq<Byte>)
    ensures |BigFreqs(b)| == 256
  {
  }

  /** The big buckets in order of increasing size, by a shell sort with Knuth's increments. */
  method RunningOrder(ghost b: seq<Byte>, ftab: array<int>) returns (order: array<int>)
    requires TableOk(b, ftab[..], {})
    ensures fresh(order) && order.Length == 256 && IsPermutation(order[..], 256)
    ensures Indexes(order[..], 0, 256, 0, 256) && SortedBy(BigFreqs(b), order[..], 0, 256)
  {
    hide TableOk, Rearranged, S, BigFreqs, SizesOf;
    FreqsKnown(b);
    SizesKnown(b, ftab[..]);
    order := new int[256];
    var i := 0;
    while i <= 255
      invariant 0 <= i <= 256
      invariant forall k | 0 <= k < i :: order[k] == k
    {
      order[i] := i;
      i := i + 1;
    }
    ghost var start := order[..];
    RearrangedRefl(start, 0, 256);
    var h := 1;
    h := 3 * h + 1;
    while h <= 256
      invariant h in {4, 13, 40, 121, 364}
      decreases 364 - h
    {
      h := 3 * h + 1;
    }
    while h != 1
      invariant h in {1, 4, 13, 40, 121, 364}
      invariant Rearranged(start, order[..], 0, 256) && Indexes(order[..], 0, 256, 0, 256)
      invariant h == 1 ==> SortedBy(BigFreqs(b), order[..], 0, 256)
    {
      h := h / 3;
      i := h;
      while i <= 255
        invariant h <= i <= 256
        invariant Rearranged(start, order[..], 0, 256) && Indexes(order[..], 0, 256, 0, 256)
        invariant h == 1 ==> SortedBy(BigFreqs(b), order[..], 0, i)
      {
        ghost var f := order[..];
        InsertBig(BigFreqs(b), order, ftab, h, i);
        RearrangedTrans(start, f, order[..], 0, 256);
        i := i + 1;
      }
    }
    RearrangedPermutation(start, order[..], 0, 256, 256);
  }

  // ---- the main loop: what is known about the pointer array ----

  /** The rotations in small bucket sb are in order. */
  ghost predicate BucketSorted(b: seq<Byte>, rk: seq<int>, f: seq<int>, sb: int)
    requires |rk| == |b| && Radixed(b, f)
  {
    forall p, q | 0 <= p < q < |b| && Key2(b, f[p]) == sb && Key2(b, f[q]) == sb :: rk[f[p]] <= rk[f[q]]
  }

  /** rk ranks the rotations of a block long enough for the main sorter. */
  ghost predicate RankOk(b: seq<Byte>, rk: seq<int>) {
    |b| > BZ_N_OVERSHOOT && |rk| == |b| && Ranks(b, |b|, rk) && forall x | 0 <= x < |b| :: 0 <= rk[x] <= |b|
  }

  /** Small bucket [c, j] is flagged. */
  ghost predicate Flagged(marked: set<int>, c: int, j: int) {
    c * 256 + j in marked
  }

  lemma FlagOneMore(marked: set<int>, sb: int)
    ensures forall c, j :: Flagged(marked, c, j) ==> Flagged(marked + {sb}, c, j)
    ensures forall c, j :: c * 256 + j == sb ==> Flagged(marked + {sb}, c, j)
  {
  }

  /** Flagged small buckets are sorted, and when big bucket c is done, so are all [c, j] and [j, c]. */
  ghost predicate Sorting(b: seq<Byte>, rk: seq<int>, f: seq<int>, marked: set<int>, done: seq<bool>) {
    && RankOk(b, rk)
    && Radixed(b, f) && |done| == 256
    && (forall sb | sb in marked :: 0 <= sb < 65536 && BucketSorted(b, rk, f, sb))
    && (forall c, j | 0 <= c < 256 && 0 <= j < 256 && done[c] :: Flagged(marked, c, j) && Flagged(marked, j, c))
  }

  lemma SortingBasics(b: seq<Byte>, rk: seq<int>, f: seq<int>, marked: set<int>, done: seq<bool>)
    requires Sorting(b, rk, f, marked, done)
    ensures |b| > BZ_N_OVERSHOOT && |rk| == |b| && Radixed(b, f) && |done| == 256 && |f| == |b|
    ensures Ranks(b, |b|, rk)
    ensures forall p | 0 <= p < |b| :: 0 <= f[p] < |b|
  {
  }

  lemma SortingStarts(b: seq<Byte>, rk: seq<int>, f: seq<int>, done: seq<bool>)
    requires RankOk(b, rk) && Radixed(b, f) && |done| == 256 && forall c | 0 <= c < 256 :: !done[c]
    ensures Sorting(b, rk, f, {}, done)
  {
  }

  /** All buckets flagged: the whole array is a sorted rotation order. */
  lemma SortingEnds(b: seq<Byte>, rk: seq<int>, f: seq<int>, marked: set<int>, done: seq<bool>)
    requires Sorting(b, rk, f, marked, done) && forall c | 0 <= c < 256 :: done[c]
    ensures IsRotationOrder(b, f)
  {
    hide Ranks, S, Key2;
    SortingBasics(b, rk, f, marked, done);
    forall p, q | 0 <= p < q < |b| ensures rk[f[p]] <= rk[f[q]] {
      RadixedIsBucketed(b, f);
      BucketedSorted(Keys(b), f, p, q);
      var sb := Key2(b, f[p]);
      if sb < Key2(b, f[q]) {
        KeyOrder(b, rk, f[p], f[q]);
      } else {
        assert done[sb / 256];
        assert sb == sb / 256 * 256 + sb % 256;
        assert Flagged(marked, sb / 256, sb % 256);
        assert BucketSorted(b, rk, f, sb);
      }
    }
    RadixedSize(b, f);
    SortedByRank(b, rk, f);
  }

  // ---- step 1 ----

  /** A bucket whose slice is sorted may be flagged. */
  lemma BucketDone(b: seq<Byte>, rk: seq<int>, f: seq<int>, g: seq<int>, marked: set<int>, done: seq<bool>, sb: int)
    requires Sorting(b, rk, f, marked, done) && 0 <= sb < 65536
    requires 0 <= S(b, sb) <= S(b, sb + 1) <= |b|
    requires Rearranged(f, g, S(b, sb), S(b, sb + 1))
    requires Indexes(g, S(b, sb), S(b, sb + 1), 0, |rk|) && SortedBy(rk, g, S(b, sb), S(b, sb + 1))
    ensures Sorting(b, rk, g, marked + {sb}, done)
  {
    hide S, Ranks, Rearranged, Radixed, BucketSorted, Indexes, SortedBy, Flagged;
    FlagOneMore(marked, sb);
    SortingBasics(b, rk, f, marked, done);
    BucketKept(b, rk, f, g, sb);
    forall sb' | sb' in marked + {sb} ensures 0 <= sb' < 65536 && BucketSorted(b, rk, g, sb') {
      assert sb' in marked || sb' == sb;
      if sb' == sb { NowSorted(b, rk, f, g, sb); } else { StillSorted(b, rk, f, g, sb, sb'); }
    }
  }

  lemma BucketKept(b: seq<Byte>, rk: seq<int>, f: seq<int>, g: seq<int>, sb: int)
    requires Radixed(b, f) && 0 <= sb < 65536 && |rk| == |b|
    requires 0 <= S(b, sb) <= S(b, sb + 1) <= |b|
    requires Rearranged(f, g, S(b, sb), S(b, sb + 1))
    ensures Radixed(b, g) && |g| == |b|
    ensures forall p | 0 <= p < |b| && Key2(b, f[p]) != sb :: g[p] == f[p]
    ensures forall p | 0 <= p < |b| :: Key2(b, g[p]) == Key2(b, f[p])
  {
    hide S, Rearranged, Key2;
    RadixedSize(b, f);
    RearrangedPermutation(f, g, S(b, sb), S(b, sb + 1), |b|);
    forall p | 0 <= p < |b| ensures 0 <= g[p] < |b| && (Key2(b, f[p]) != sb ==> g[p] == f[p])
      && Key2(b, g[p]) == Key2(b, f[p]) {
      BucketHolds(b, f, sb, p);
      if Key2(b, f[p]) != sb {
        RearrangedOutside(f, g, S(b, sb), S(b, sb + 1), p);
      } else {
        var p' := RearrangedMember(f, g, S(b, sb), S(b, sb + 1), p);
        BucketHolds(b, f, sb, p');
      }
    }
  }

  lemma NowSorted(b: seq<Byte>, rk: seq<int>, f: seq<int>, g: seq<int>, sb: int)
    requires Radixed(b, f) && Radixed(b, g) && 0 <= sb < 65536 && |rk| == |b|
    requires 0 <= S(b, sb) <= S(b, sb + 1) <= |b|
    requires Indexes(g, S(b, sb), S(b, sb + 1), 0, |rk|) && SortedBy(rk, g, S(b, sb), S(b, sb + 1))
    ensures BucketSorted(b, rk, g, sb)
  {
    hide S, Key2;
    forall p, q | 0 <= p < q < |b| && Key2(b, g[p]) == sb && Key2(b, g[q]) == sb ensures rk[g[p]] <= rk[g[q]] {
      BucketHolds(b, g, sb, p);
      BucketHolds(b, g, sb, q);
    }
  }

  lemma StillSorted(b: seq<Byte>, rk: seq<int>, f: seq<int>, g: seq<int>, sb: int, sb': int)
    requires Radixed(b, f) && Radixed(b, g) && |rk| == |b| && BucketSorted(b, rk, f, sb') && sb != sb'
    requires forall p | 0 <= p < |b| && Key2(b, f[p]) != sb :: g[p] == f[p]
    requires forall p | 0 <= p < |b| :: Key2(b, g[p]) == Key2(b, f[p])
    ensures BucketSorted(b, rk, g, sb')
  {
    hide S, Key2;
  }

  /** A bucket of at most one entry is sorted. */
  lemma SmallBucketDone(b: seq<Byte>, rk: seq<int>, f: seq<int>, marked: set<int>, done: seq<bool>, sb: int)
    requires Sorting(b, rk, f, marked, done) && 0 <= sb < 65536
    requires S(b, sb + 1) - 1 <= S(b, sb)
    ensures Sorting(b, rk, f, marked + {sb}, done)
  {
    hide S, Ranks, Radixed, Key2, Flagged;
    FlagOneMore(marked, sb);
    SortingBasics(b, rk, f, marked, done);
    forall p, q | 0 <= p < q < |b| ensures !(Key2(b, f[p]) == sb && Key2(b, f[q]) == sb) {
      BucketHolds(b, f, sb, p);
      BucketHolds(b, f, sb, q);
    }
  }

  lemma BucketAgrees(b: seq<Byte>, f: seq<int>, sb: int)
    requires |b| > 0 && Radixed(b, f) && 0 <= sb < 65536
    ensures 0 <= S(b, sb) <= S(b, sb + 1) <= |b|
    ensures Agree(b, f, S(b, sb), S(b, sb + 1), 2)
  {
    hide S, Key2, Cmp;
    StartsBounded(b, sb);
    StartsBounded(b, sb + 1);
    StartsGrow(b, sb, sb + 1);
    forall i, j | S(b, sb) <= i < S(b, sb + 1) && S(b, sb) <= j < S(b, sb + 1) ensures Cmp(b, f[i], f[j], 2) == 0 {
      BucketHolds(b, f, sb, i);
      BucketHolds(b, f, sb, j);
      KeysAgree(b, f[i], f[j]);
    }
  }

  /** Step 1: quicksort the small buckets [ss, j], j != ss, that are not sorted yet. */
  method SortSmallBuckets(ghost b: seq<Byte>, ghost rk: seq<int>, ptr: array<int>, block: seq<Byte>, quadrant: seq<int>,
                          ftab: array<int>, nblock: int, ss: int, budget: int,
                          ghost marked0: set<int>, ghost done: seq<bool>)
    returns (left: int, ghost marked: set<int>)
    requires nblock == |b| == ptr.Length && 0 <= ss < 256 && ftab != ptr && budget >= 0
    requires Overshot(b, block) && QuadrantsOrder(b, quadrant)
    requires Sorting(b, rk, ptr[..], marked0, done) && TableOk(b, ftab[..], marked0)
    modifies ptr, ftab
    ensures left <= budget
    ensures IsPermutation(ptr[..], nblock)
    ensures left >= 0 ==> Sorting(b, rk, ptr[..], marked, done) && TableOk(b, ftab[..], marked)
    ensures left >= 0 ==> marked0 <= marked && forall j | 0 <= j < 256 && j != ss :: Flagged(marked, ss, j)
  {
    hide Sorting, TableOk, S, Overshot, QuadrantsOrder, Ranks, Rearranged, Radixed, Agree, Indexes, SortedBy,
         IsPermutation;
    left := budget;
    marked := marked0;
    var j := 0;
    SortingBasics(b, rk, ptr[..], marked, done);
    while j <= 255
      invariant 0 <= j <= 256 && left <= budget
      invariant left >= 0
      invariant Sorting(b, rk, ptr[..], marked, done) && TableOk(b, ftab[..], marked)
      invariant marked0 <= marked && forall k | 0 <= k < j && k != ss :: Flagged(marked, ss, k)
    {
      if j != ss {
        var sb := ss * 256 + j;
        FlagOneMore(marked, sb);
        ghost var f := ptr[..];
        SortingBasics(b, rk, f, marked, done);
        TableRead(b, ftab[..], marked, sb);
        TableRead(b, ftab[..], marked, sb + 1);
        ghost var now := marked + {sb};
        if !IsMarked(ftab[sb]) {
          var lo := Clear(ftab[sb]);
          var hi := Clear(ftab[sb + 1]) - 1;
          if hi > lo {
            BucketAgrees(b, f, sb);
            TableSmall(b, ftab[..], marked);
            left := MainQSort3(ptr, b, rk, block, quadrant, nblock, lo, hi, BZ_N_RADIX, left);
            if left < 0 {
              StillPermuted(b, f, ptr[..], lo, hi + 1);
              return;
            }
            BucketDone(b, rk, f, ptr[..], marked, done, sb);
          } else {
            SmallBucketDone(b, rk, f, marked, done, sb);
          }
        } else {
          assert now == marked;
        }
        MarkBucket(b, ftab, sb, marked);
        marked := now;
      }
      j := j + 1;
    }
    SortingBasics(b, rk, ptr[..], marked, done);
    RadixedSize(b, ptr[..]);
  }

  lemma TableSmall(b: seq<Byte>, ftab: seq<int>, marked: set<int>)
    requires TableOk(b, ftab, marked)
    ensures |b| <= MAX_BLOCK
  {
  }

  lemma StillPermuted(b: seq<Byte>, f: seq<int>, g: seq<int>, lo: int, hi: int)
    requires Radixed(b, f) && Rearranged(f, g, lo, hi)
    ensures IsPermutation(g, |b|)
  {
    RearrangedPermutation(f, g, lo, hi, |b|);
  }

  // ---- step 2 ----

  /** Step 1 has prepared big bucket ss. */
  lemma BigBucketReady(b: seq<Byte>, rk: seq<int>, f: seq<int>, marked: set<int>, done: seq<bool>, ss: int)
    requires Sorting(b, rk, f, marked, done) && 0 <= ss < 256
    requires forall j | 0 <= j < 256 && j != ss :: Flagged(marked, ss, j)
    ensures Setting(b, f, done, ss) && |rk| == |b| && BigSorted(b, rk, f, ss)
  {
    hide Ranks, Radixed;
    SortingBasics(b, rk, f, marked, done);
    forall p, q | 0 <= p < q < |b| && Key2(b, f[p]) == Key2(b, f[q]) && b[f[p]] == ss && b[Succ(f[p], |b|)] != ss
      ensures rk[f[p]] <= rk[f[q]]
    {
      assert Flagged(marked, ss, b[Succ(f[p], |b|)]);
      assert BucketSorted(b, rk, f, Key2(b, f[p]));
    }
  }

  /** What the left scan reads next is the next entry of its queue. */
  lemma LeftReads(b: seq<Byte>, rk: seq<int>, f0: seq<int>, done: seq<bool>, ss: int, seen: seq<int>)
    requires Setting(b, f0, done, ss) && |rk| == |b| && |f0| == |b| && !done[ss]
    requires QueueOk(b, rk, ss, LeftBase(b, f0, ss), seen)
    requires |seen| < |Queue(b, ss, LeftBase(b, f0, ss), seen)|
    ensures var p := S(b, ss * 256) + |seen|;
            0 <= p < |b| && Expect(b, f0, done, ss, seen, [], p) == Queue(b, ss, LeftBase(b, f0, ss), seen)[|seen|]
  {
    hide S, Radixed, QueueOk, Preds, LeftBase;
    RadixedSize(b, f0);
    var base := LeftBase(b, f0, ss);
    QueueBasics(b, rk, ss, base, seen);
    LeftBaseSize(b, f0, ss);
    var p := S(b, ss * 256) + |seen|;
    if |seen| < |base| {
      LeftBaseIs(b, f0, ss, |seen|);
      RangeHolds(b, f0, ss * 256, ss * 256 + ss, p);
    } else {
      SeenIsSeen(b, rk, ss, base, seen);
      Room(b, f0, done, ss, seen, ss);
      StartsBounded(b, ss * 256 + ss + 1);
      BucketHolds(b, f0, ss * 256 + ss, p);
    }
  }

  lemma LeftBaseSize(b: seq<Byte>, f0: seq<int>, ss: int)
    requires |f0| == |b| && 0 <= ss < 256
    ensures |LeftBase(b, f0, ss)| == S(b, ss * 256 + ss) - S(b, ss * 256)
  {
    hide S;
    StartsBounded(b, ss * 256 + ss);
    StartsGrow(b, ss * 256, ss * 256 + ss);
  }

  lemma RightBaseSize(b: seq<Byte>, f0: seq<int>, ss: int)
    requires |f0| == |b| && 0 <= ss < 256
    ensures |RightBase(b, f0, ss)| == S(b, ss * 256 + 256) - S(b, ss * 256 + ss + 1)
  {
    hide S;
    StartsBounded(b, ss * 256 + 256);
    StartsGrow(b, ss * 256 + ss + 1, ss * 256 + 256);
  }

  lemma SeenIsSeen(b: seq<Byte>, ky: seq<int>, ss: int, base: seq<int>, seen: seq<int>)
    requires |b| > 0 && QueueOk(b, ky, ss, base, seen)
    ensures Seen(b, ss, seen)
  {
    QueueBasics(b, ky, ss, base, seen);
  }

  /** The state of the left scan. */
  ghost predicate LeftScanning(b: seq<Byte>, rk: seq<int>, f0: seq<int>, done: seq<bool>, ss: int,
                               f: seq<int>, copyStart: seq<int>, seen: seq<int>, j: int)
  {
    && Setting(b, f0, done, ss) && |rk| == |b| == |f0| && !done[ss] && |copyStart| == 256
    && QueueOk(b, rk, ss, LeftBase(b, f0, ss), seen)
    && InRange(seen, |b|) && f == Expected(b, f0, done, ss, seen, [])
    && j == S(b, ss * 256) + |seen|
    && forall t | 0 <= t < 256 && !done[t] :: copyStart[t] == S(b, t * 256 + ss) + |Preds(b, seen, t)|
  }

  lemma LeftStarts(b: seq<Byte>, rk: seq<int>, f0: seq<int>, done: seq<bool>, ss: int, copyStart: seq<int>)
    requires Setting(b, f0, done, ss) && |rk| == |b| && BigSorted(b, rk, f0, ss) && !done[ss] && |copyStart| == 256
    requires forall t | 0 <= t < 256 :: copyStart[t] == S(b, t * 256 + ss)
    ensures LeftScanning(b, rk, f0, done, ss, f0, copyStart, [], S(b, ss * 256))
  {
    hide S, BigSorted, LeftBase, BaseOk, QueueOk, Radixed;
    RadixedSize(b, f0);
    LeftBaseOk(b, rk, f0, ss);
    QueueStarts(b, rk, ss, LeftBase(b, f0, ss));
    NothingSeen(b, f0, done, ss);
  }

  lemma LeftMore(b: seq<Byte>, rk: seq<int>, f0: seq<int>, done: seq<bool>, ss: int,
                 f: seq<int>, copyStart: seq<int>, seen: seq<int>, j: int)
    requires LeftScanning(b, rk, f0, done, ss, f, copyStart, seen, j)
    ensures 1 < |b| == |f| == |f0| && InRange(seen, |b|) && 0 <= j && |copyStart| == 256
    ensures j < copyStart[ss] <==> |seen| < |Queue(b, ss, LeftBase(b, f0, ss), seen)|
    ensures j >= copyStart[ss] ==> seen == Queue(b, ss, LeftBase(b, f0, ss), seen)
    ensures j < copyStart[ss] ==> j < |b| && 0 <= f[j] < |b|
  {
    hide S, Radixed, QueueOk, Preds, LeftBase;
    QueueBasics(b, rk, ss, LeftBase(b, f0, ss), seen);
    LeftBaseSize(b, f0, ss);
    if j < copyStart[ss] {
      LeftReads(b, rk, f0, done, ss, seen);
    }
  }

  lemma LeftAdvances(b: seq<Byte>, rk: seq<int>, f0: seq<int>, done: seq<bool>, ss: int,
                     f: seq<int>, copyStart: seq<int>, seen: seq<int>, j: int)
    requires LeftScanning(b, rk, f0, done, ss, f, copyStart, seen, j)
    requires |f| == |b| && 0 <= j < |b| && |copyStart| == 256 && j < copyStart[ss] && 0 <= f[j] < |b|
    ensures var k := Pred(f[j], |b|);
            var t := b[k];
            && |done| == 256
            && (done[t] ==> LeftScanning(b, rk, f0, done, ss, f, copyStart, seen + [f[j]], j + 1))
            && (!done[t] ==>
                 && 0 <= copyStart[t] < |b|
                 && LeftScanning(b, rk, f0, done, ss, f[copyStart[t] := k], copyStart[t := copyStart[t] + 1],
                                 seen + [f[j]], j + 1))
  {
    hide S, Radixed, QueueOk, LeftBase, Expected, Preds;
    var base := LeftBase(b, f0, ss);
    QueueBasics(b, rk, ss, base, seen);
    LeftMore(b, rk, f0, done, ss, f, copyStart, seen, j);
    LeftReads(b, rk, f0, done, ss, seen);
    var x := f[j];
    assert x == Queue(b, ss, base, seen)[|seen|] by { ExpectedAt(b, f0, done, ss, seen, [], j); }
    QueueStep(b, rk, ss, base, seen);
    SeenIsSeen(b, rk, ss, base, seen + [x]);
    SeenRange(b, ss, seen + [x]);
    LeftStep(b, f0, done, ss, seen, x);
    forall t | 0 <= t < 256
      ensures |Preds(b, seen + [x], t)| == |Preds(b, seen, t)| + if b[Pred(x, |b|)] == t then 1 else 0
    {
      PredsStep(b, seen, x, t);
    }
  }

  lemma ExpectedAt(b: seq<Byte>, f0: seq<int>, done: seq<bool>, ss: int, sl: seq<int>, sr: seq<int>, p: int)
    requires Setting(b, f0, done, ss) && InRange(sl, |b|) && InRange(sr, |b|) && 0 <= p < |b|
    ensures |Expected(b, f0, done, ss, sl, sr)| == |b|
    ensures Expected(b, f0, done, ss, sl, sr)[p] == Expect(b, f0, done, ss, sl, sr, p)
  {
  }

  /** The left-to-right scan of step 2. */
  method ScanLeft(ghost b: seq<Byte>, ghost rk: seq<int>, ptr: array<int>, block: seq<Byte>, bigDone: seq<bool>,
                  copyStart: array<int>, nblock: int, ss: int, from: int)
    returns (ghost seen: seq<int>, j: int)
    requires nblock == |b| == ptr.Length && |b| <= |block| && block[..|b|] == b && copyStart != ptr
             && copyStart.Length == 256
    requires 0 <= ss < 256 && |bigDone| == 256
    requires LeftScanning(b, rk, ptr[..], bigDone, ss, ptr[..], copyStart[..], [], from)
    modifies ptr, copyStart
    ensures |b| > 0 && |old(ptr[..])| == |b|
    ensures LeftScanning(b, rk, old(ptr[..]), bigDone, ss, ptr[..], copyStart[..], seen, j)
    ensures seen == Queue(b, ss, LeftBase(b, old(ptr[..]), ss), seen)
  {
    hide LeftScanning, LeftBase, Queue;
    ghost var f0 := ptr[..];
    BlockBytes(b, block);
    seen := [];
    j := from;
    LeftMore(b, rk, f0, bigDone, ss, ptr[..], copyStart[..], seen, j);
    while j < copyStart[ss]
      invariant LeftScanning(b, rk, f0, bigDone, ss, ptr[..], copyStart[..], seen, j)
      invariant 0 <= j
      decreases nblock - j
    {
      LeftMore(b, rk, f0, bigDone, ss, ptr[..], copyStart[..], seen, j);
      LeftAdvances(b, rk, f0, bigDone, ss, ptr[..], copyStart[..], seen, j);
      var k := ptr[j] - 1;
      if k < 0 { k := k + nblock; }
      var c1 := block[k];
      seen := seen + [ptr[j]];
      if !bigDone[c1] {
        ghost var f, cs := ptr[..], copyStart[..];
        ptr[copyStart[c1]] := k;
        assert ptr[..] == f[cs[c1] := k];
        copyStart[c1] := copyStart[c1] + 1;
        assert copyStart[..] == cs[c1 := cs[c1] + 1];
      }
      j := j + 1;
    }
    LeftMore(b, rk, f0, bigDone, ss, ptr[..], copyStart[..], seen, j);
  }

  /** The left scan has finished, having seen sl. */
  ghost predicate LeftDone(b: seq<Byte>, rk: seq<int>, f0: seq<int>, done: seq<bool>, ss: int, sl: seq<int>)
  {
    && Setting(b, f0, done, ss) && |rk| == |b| == |f0| && !done[ss] && BigSorted(b, rk, f0, ss)
    && QueueOk(b, rk, ss, LeftBase(b, f0, ss), sl) && sl == Queue(b, ss, LeftBase(b, f0, ss), sl)
  }

  lemma LeftDoneBasics(b: seq<Byte>, rk: seq<int>, f0: seq<int>, done: seq<bool>, ss: int, sl: seq<int>)
    requires LeftDone(b, rk, f0, done, ss, sl)
    ensures Setting(b, f0, done, ss) && |rk| == |b| == |f0| && !done[ss] && BigSorted(b, rk, f0, ss)
    ensures InRange(sl, |b|) && NoDuplicates(sl) && AscendingBy(rk, sl)
    ensures forall i | 0 <= i < |sl| :: Follows(b, rk, ss, sl[i])
  {
    hide BigSorted, QueueOk, LeftBase, Queue, AscendingBy, Radixed;
    QueueBasics(b, rk, ss, LeftBase(b, f0, ss), sl);
  }

  lemma SeenTogether(b: seq<Byte>, rk: seq<int>, f0: seq<int>, done: seq<bool>, ss: int, sl: seq<int>, sr: seq<int>)
    requires LeftDone(b, rk, f0, done, ss, sl) && |b| > 0 && |f0| == |b| && |rk| == |b| && 0 <= ss < 256
    requires QueueOk(b, Negated(rk), ss, RightBase(b, f0, ss), sr)
    ensures Seen(b, ss, sl + sr) && InRange(sl, |b|) && InRange(sr, |b|)
  {
    hide LeftDone, QueueOk, RightBase, AscendingBy, BigSorted, Setting;
    LeftDoneBasics(b, rk, f0, done, ss, sl);
    QueueBasics(b, Negated(rk), ss, RightBase(b, f0, ss), sr);
    SeenBoth(b, rk, ss, sl, sr);
  }

  /** What the right scan reads next is the next entry of its queue. */
  lemma RightReads(b: seq<Byte>, rk: seq<int>, f0: seq<int>, done: seq<bool>, ss: int, sl: seq<int>, sr: seq<int>)
    requires Setting(b, f0, done, ss) && |rk| == |b| == |f0| && !done[ss]
    requires LeftDone(b, rk, f0, done, ss, sl) && InRange(sl, |b|)
    requires QueueOk(b, Negated(rk), ss, RightBase(b, f0, ss), sr) && InRange(sr, |b|)
    requires InRange(RightBase(b, f0, ss), |b|)
    requires |sr| < |Queue(b, ss, RightBase(b, f0, ss), sr)|
    ensures var p := S(b, ss * 256 + 256) - 1 - |sr|;
            0 <= p < |b| && Expect(b, f0, done, ss, sl, sr, p) == Queue(b, ss, RightBase(b, f0, ss), sr)[|sr|]
  {
    hide S, Radixed, QueueOk, Preds, RightBase, LeftDone;
    RadixedSize(b, f0);
    var base := RightBase(b, f0, ss);
    RightBaseSize(b, f0, ss);
    var p := S(b, ss * 256 + 256) - 1 - |sr|;
    if |sr| < |base| {
      RightBaseIs(b, f0, ss, |sr|);
      RangeHolds(b, f0, ss * 256 + ss + 1, ss * 256 + 256, p);
    } else {
      SeenTogether(b, rk, f0, done, ss, sl, sr);
      Room(b, f0, done, ss, sl + sr, ss);
      PredsConcat(b, sl, sr, ss);
      StartsBounded(b, ss * 256 + ss + 1);
      BucketHolds(b, f0, ss * 256 + ss, p);
    }
  }

  /** The state of the right scan. */
  ghost predicate RightScanning(b: seq<Byte>, rk: seq<int>, f0: seq<int>, done: seq<bool>, ss: int, sl: seq<int>,
                                f: seq<int>, copyEnd: seq<int>, sr: seq<int>, j: int)
  {
    && LeftDone(b, rk, f0, done, ss, sl) && |copyEnd| == 256
    && QueueOk(b, Negated(rk), ss, RightBase(b, f0, ss), sr)
    && InRange(sl, |b|) && InRange(sr, |b|) && f == Expected(b, f0, done, ss, sl, sr)
    && j == S(b, ss * 256 + 256) - 1 - |sr|
    && forall t | 0 <= t < 256 && !done[t] :: copyEnd[t] == S(b, t * 256 + ss + 1) - 1 - |Preds(b, sr, t)|
  }

  lemma RightStarts(b: seq<Byte>, rk: seq<int>, f0: seq<int>, done: seq<bool>, ss: int, sl: seq<int>,
                    f: seq<int>, copyEnd: seq<int>)
    requires LeftDone(b, rk, f0, done, ss, sl) && InRange(sl, |b|) && Setting(b, f0, done, ss) && |copyEnd| == 256
    requires f == Expected(b, f0, done, ss, sl, [])
    requires forall t | 0 <= t < 256 :: copyEnd[t] == S(b, t * 256 + ss + 1) - 1
    ensures RightScanning(b, rk, f0, done, ss, sl, f, copyEnd, [], S(b, ss * 256 + 256) - 1)
  {
    hide S, BigSorted, RightBase, BaseOk, QueueOk, Radixed, Queue, LeftBase;
    RightBaseOk(b, rk, f0, ss);
    QueueStarts(b, Negated(rk), ss, RightBase(b, f0, ss));
  }

  lemma RightBasics(b: seq<Byte>, rk: seq<int>, f0: seq<int>, done: seq<bool>, ss: int, sl: seq<int>,
                    f: seq<int>, copyEnd: seq<int>, sr: seq<int>, j: int)
    requires RightScanning(b, rk, f0, done, ss, sl, f, copyEnd, sr, j)
    ensures LeftDone(b, rk, f0, done, ss, sl) && Setting(b, f0, done, ss) && |rk| == |b| == |f0| && !done[ss]
    ensures InRange(sl, |b|) && InRange(sr, |b|) && InRange(RightBase(b, f0, ss), |b|)
    ensures QueueOk(b, Negated(rk), ss, RightBase(b, f0, ss), sr)
  {
    hide QueueOk, RightBase, Expected, S, Preds, Radixed, Queue, LeftBase, BigSorted, LeftDone;
    LeftDoneBasics(b, rk, f0, done, ss, sl);
    QueueBasics(b, Negated(rk), ss, RightBase(b, f0, ss), sr);
  }

  lemma RightMore(b: seq<Byte>, rk: seq<int>, f0: seq<int>, done: seq<bool>, ss: int, sl: seq<int>,
                  f: seq<int>, copyEnd: seq<int>, sr: seq<int>, j: int)
    requires RightScanning(b, rk, f0, done, ss, sl, f, copyEnd, sr, j)
    ensures 1 < |b| == |f| == |f0| && |rk| == |b| && 0 <= ss < 256 && InRange(sr, |b|) && |copyEnd| == 256
    ensures InRange(RightBase(b, f0, ss), |b|)
    ensures j > copyEnd[ss] <==> |sr| < |Queue(b, ss, RightBase(b, f0, ss), sr)|
    ensures j <= copyEnd[ss] ==> sr == Queue(b, ss, RightBase(b, f0, ss), sr)
    ensures j > copyEnd[ss] ==> 0 <= j < |b| && 0 <= f[j] < |b|
  {
    hide S, Radixed, QueueOk, Preds, RightBase, LeftDone;
    RightBasics(b, rk, f0, done, ss, sl, f, copyEnd, sr, j);
    QueueBasics(b, Negated(rk), ss, RightBase(b, f0, ss), sr);
    RightBaseSize(b, f0, ss);
    if j > copyEnd[ss] {
      RightReads(b, rk, f0, done, ss, sl, sr);
    }
  }

  lemma RightAdvances(b: seq<Byte>, rk: seq<int>, f0: seq<int>, done: seq<bool>, ss: int, sl: seq<int>,
                      f: seq<int>, copyEnd: seq<int>, sr: seq<int>, j: int)
    requires RightScanning(b, rk, f0, done, ss, sl, f, copyEnd, sr, j)
    requires |f| == |b| && 0 <= j < |b| && |copyEnd| == 256 && 0 <= ss < 256 && j > copyEnd[ss] && 0 <= f[j] < |b|
    ensures var k := Pred(f[j], |b|);
            var t := b[k];
            && |done| == 256
            && (done[t] ==> RightScanning(b, rk, f0, done, ss, sl, f, copyEnd, sr + [f[j]], j - 1))
            && (!done[t] ==>
                 && 0 <= copyEnd[t] < |b|
                 && RightScanning(b, rk, f0, done, ss, sl, f[copyEnd[t] := k], copyEnd[t := copyEnd[t] - 1],
                                  sr + [f[j]], j - 1))
  {
    hide S, Radixed, QueueOk, RightBase, Expected, Preds, LeftDone;
    RightBasics(b, rk, f0, done, ss, sl, f, copyEnd, sr, j);
    var base, ky := RightBase(b, f0, ss), Negated(rk);
    RightMore(b, rk, f0, done, ss, sl, f, copyEnd, sr, j);
    RightReads(b, rk, f0, done, ss, sl, sr);
    var x := f[j];
    assert x == Queue(b, ss, base, sr)[|sr|] by { ExpectedAt(b, f0, done, ss, sl, sr, j); }
    QueueStep(b, ky, ss, base, sr);
    SeenTogether(b, rk, f0, done, ss, sl, sr + [x]);
    RightStep(b, f0, done, ss, sl, sr, x);
    forall t | 0 <= t < 256
      ensures |Preds(b, sr + [x], t)| == |Preds(b, sr, t)| + if b[Pred(x, |b|)] == t then 1 else 0
    {
      PredsStep(b, sr, x, t);
    }
  }

  /** The right-to-left scan of step 2. */
  method ScanRight(ghost b: seq<Byte>, ghost rk: seq<int>, ghost f0: seq<int>, ghost sl: seq<int>,
                   ptr: array<int>, block: seq<Byte>, bigDone: seq<bool>,
                   copyEnd: array<int>, nblock: int, ss: int, from: int)
    returns (ghost sr: seq<int>, j: int)
    requires nblock == |b| == ptr.Length && |b| <= |block| && block[..|b|] == b && copyEnd != ptr
             && copyEnd.Length == 256
    requires 0 <= ss < 256 && |bigDone| == 256
    requires RightScanning(b, rk, f0, bigDone, ss, sl, ptr[..], copyEnd[..], [], from)
    modifies ptr, copyEnd
    ensures |b| > 0 && |f0| == |b| && InRange(RightBase(b, f0, ss), |b|) && InRange(sr, |b|)
    ensures RightScanning(b, rk, f0, bigDone, ss, sl, ptr[..], copyEnd[..], sr, j)
    ensures sr == Queue(b, ss, RightBase(b, f0, ss), sr)
  {
    hide RightScanning, RightBase, Queue;
    BlockBytes(b, block);
    sr := [];
    j := from;
    RightMore(b, rk, f0, bigDone, ss, sl, ptr[..], copyEnd[..], sr, j);
    while j > copyEnd[ss]
      invariant RightScanning(b, rk, f0, bigDone, ss, sl, ptr[..], copyEnd[..], sr, j)
      invariant j >= -1 || j <= copyEnd[ss]
      decreases j
    {
      RightMore(b, rk, f0, bigDone, ss, sl, ptr[..], copyEnd[..], sr, j);
      RightAdvances(b, rk, f0, bigDone, ss, sl, ptr[..], copyEnd[..], sr, j);
      var k := ptr[j] - 1;
      if k < 0 { k := k + nblock; }
      var c1 := block[k];
      sr := sr + [ptr[j]];
      if !bigDone[c1] {
        ghost var f, ce := ptr[..], copyEnd[..];
        ptr[copyEnd[c1]] := k;
        assert ptr[..] == f[ce[c1] := k];
        copyEnd[c1] := copyEnd[c1] - 1;
        assert copyEnd[..] == ce[c1 := ce[c1] - 1];
      }
      j := j - 1;
    }
    RightMore(b, rk, f0, bigDone, ss, sl, ptr[..], copyEnd[..], sr, j);
  }

  // ---- what step 2 achieves ----

  /** Two exhausted queues have seen exactly the followers in either direction. */
  lemma BothComplete(b: seq<Byte>, rk: seq<int>, f0: seq<int>, done: seq<bool>, ss: int, sl: seq<int>, sr: seq<int>)
    requires LeftDone(b, rk, f0, done, ss, sl) && |rk| == |b| == |f0| && |b| > 0 && 0 <= ss < 256
    requires InRange(RightBase(b, f0, ss), |b|) && InRange(sr, |b|)
    requires QueueOk(b, Negated(rk), ss, RightBase(b, f0, ss), sr) && sr == Queue(b, ss, RightBase(b, f0, ss), sr)
    ensures Scanned(b, rk, ss, sl, sr)
  {
    hide QueueOk, Queue, LeftBase, RightBase, Follows, AscendingBy, Setting, Ranks;
    var ky := Negated(rk);
    LeftDoneBasics(b, rk, f0, done, ss, sl);
    QueueBasics(b, ky, ss, RightBase(b, f0, ss), sr);
    forall x ensures x in sl <==> Follows(b, rk, ss, x) {
      if Follows(b, rk, ss, x) { QueueComplete(b, rk, ss, LeftBase(b, f0, ss), sl, 0, x); }
    }
    forall x ensures x in sr <==> Follows(b, ky, ss, x) {
      if Follows(b, ky, ss, x) { QueueComplete(b, ky, ss, RightBase(b, f0, ss), sr, -|b|, x); }
    }
  }

  /** After step 2 the small buckets [j, ss] may all be flagged. */
  lemma ColumnDone(b: seq<Byte>, rk: seq<int>, f0: seq<int>, marked: set<int>, marked': set<int>, done: seq<bool>,
                   ss: int, sl: seq<int>, sr: seq<int>)
    requires Sorting(b, rk, f0, marked, done) && Setting(b, f0, done, ss) && |rk| == |b|
    requires Scanned(b, rk, ss, sl, sr) && InRange(sl, |b|) && InRange(sr, |b|)
    requires marked' == marked + Column(ss)
    ensures Sorting(b, rk, Expected(b, f0, done, ss, sl, sr), marked', done)
  {
    hide S, Ranks, Radixed, Scanned, Key2, Expected, Flagged;
    SortingBasics(b, rk, f0, marked, done);
    CopyOutcome(b, rk, f0, done, ss, sl, sr);
    var f1 := Expected(b, f0, done, ss, sl, sr);
    FlagMore(marked, Column(ss));
    forall sb | sb in marked' ensures 0 <= sb < 65536 && BucketSorted(b, rk, f1, sb) {
      ColumnBucket(b, rk, f0, f1, marked, done, ss, sb);
    }
  }

  /** The keys of the small buckets [t, ss]. */
  ghost function Column(ss: int): set<int>
  {
    set t | 0 <= t < 256 :: t * 256 + ss
  }

  lemma FlagMore(marked: set<int>, more: set<int>)
    ensures forall c, j :: Flagged(marked, c, j) ==> Flagged(marked + more, c, j)
  {
  }

  lemma ColumnBucket(b: seq<Byte>, rk: seq<int>, f0: seq<int>, f1: seq<int>, marked: set<int>, done: seq<bool>, ss: int,
                     sb: int)
    requires Sorting(b, rk, f0, marked, done) && Setting(b, f0, done, ss) && |rk| == |b| && Radixed(b, f1)
    requires forall p | 0 <= p < |b| :: Key2(b, f1[p]) == Key2(b, f0[p])
    requires forall p | 0 <= p < |b| && (b[Succ(f0[p], |b|)] != ss || done[b[f0[p]]]) :: f1[p] == f0[p]
    requires forall p, q | 0 <= p < q < |b| && Key2(b, f0[p]) == Key2(b, f0[q]) && b[Succ(f0[p], |b|)] == ss
             && !done[b[f0[p]]] ::
               rk[f1[p]] <= rk[f1[q]]
    requires sb in marked || sb in Column(ss)
    ensures 0 <= sb < 65536 && BucketSorted(b, rk, f1, sb)
  {
    hide S, Ranks, Radixed, Sorting, BucketSorted, Column, Key2, Flagged;
    SortingBasics(b, rk, f0, marked, done);
    InColumn(ss, sb);
    if sb % 256 != ss || (0 <= sb < 65536 && done[sb / 256]) {
      WasSorted(b, rk, f0, marked, done, ss, sb);
      ColumnOld(b, rk, f0, f1, done, ss, sb);
    } else {
      InMarked(b, rk, f0, marked, done, sb);
      ColumnNew(b, rk, f0, f1, done, ss, sb);
    }
  }

  lemma InColumn(ss: int, sb: int)
    requires 0 <= ss < 256
    ensures sb in Column(ss) ==> 0 <= sb < 65536 && sb % 256 == ss
  {
  }

  lemma InMarked(b: seq<Byte>, rk: seq<int>, f0: seq<int>, marked: set<int>, done: seq<bool>, sb: int)
    requires Sorting(b, rk, f0, marked, done)
    ensures sb in marked ==> 0 <= sb < 65536
  {
    hide Ranks, Radixed;
  }

  lemma WasSorted(b: seq<Byte>, rk: seq<int>, f0: seq<int>, marked: set<int>, done: seq<bool>, ss: int, sb: int)
    requires Sorting(b, rk, f0, marked, done) && Radixed(b, f0) && |rk| == |b| && |done| == 256 && 0 <= ss < 256
    requires sb in marked || (0 <= sb < 65536 && done[sb / 256])
    ensures 0 <= sb < 65536 && BucketSorted(b, rk, f0, sb)
  {
    hide Ranks, Radixed, BucketSorted;
    if sb !in marked {
      assert Flagged(marked, sb / 256, sb % 256);
    }
  }

  lemma ColumnOld(b: seq<Byte>, rk: seq<int>, f0: seq<int>, f1: seq<int>, done: seq<bool>, ss: int, sb: int)
    requires Radixed(b, f0) && Radixed(b, f1) && |rk| == |b| && |done| == 256 && 0 <= sb < 65536
    requires BucketSorted(b, rk, f0, sb) && (sb % 256 != ss || done[sb / 256])
    requires forall p | 0 <= p < |b| :: Key2(b, f1[p]) == Key2(b, f0[p])
    requires forall p | 0 <= p < |b| && (b[Succ(f0[p], |b|)] != ss || done[b[f0[p]]]) :: f1[p] == f0[p]
    ensures BucketSorted(b, rk, f1, sb)
  {
    hide S;
    forall p | 0 <= p < |b| && Key2(b, f0[p]) == sb ensures f1[p] == f0[p] {
      assert b[f0[p]] == sb / 256 && b[Succ(f0[p], |b|)] == sb % 256;
    }
  }

  lemma ColumnNew(b: seq<Byte>, rk: seq<int>, f0: seq<int>, f1: seq<int>, done: seq<bool>, ss: int, sb: int)
    requires Radixed(b, f0) && Radixed(b, f1) && |rk| == |b| && |done| == 256 && 0 <= sb < 65536
    requires sb % 256 == ss && !done[sb / 256]
    requires forall p | 0 <= p < |b| :: Key2(b, f1[p]) == Key2(b, f0[p])
    requires forall p, q | 0 <= p < q < |b| && Key2(b, f0[p]) == Key2(b, f0[q]) && b[Succ(f0[p], |b|)] == ss
             && !done[b[f0[p]]] ::
               rk[f1[p]] <= rk[f1[q]]
    ensures BucketSorted(b, rk, f1, sb)
  {
    hide S;
    forall p, q | 0 <= p < q < |b| && Key2(b, f1[p]) == sb && Key2(b, f1[q]) == sb ensures rk[f1[p]] <= rk[f1[q]] {
      assert Key2(b, f0[p]) == sb && Key2(b, f0[q]) == sb;
      assert b[f0[p]] == sb / 256 && b[Succ(f0[p], |b|)] == sb % 256;
    }
  }

  /** The first exit of assertion 1007, and the extremely rare second one. */
  lemma CursorsMeet(b: seq<Byte>, rk: seq<int>, f0: seq<int>, done: seq<bool>, ss: int, sl: seq<int>, sr: seq<int>)
    requires Setting(b, f0, done, ss) && |rk| == |b| && Ranks(b, |b|, rk)
    requires Scanned(b, rk, ss, sl, sr) && InRange(sl, |b|) && InRange(sr, |b|)
    ensures var start := S(b, ss * 256 + ss) + |Preds(b, sl, ss)|;
            var end := S(b, ss * 256 + ss + 1) - 1 - |Preds(b, sr, ss)|;
            start - 1 == end || (start == 0 && end == |b| - 1)
  {
    hide S, Ranks, Radixed, Scanned, Preds;
    RadixedSize(b, f0);
    if exists x | 0 <= x < |b| && b[x] == ss :: rk[Succ(x, |b|)] == rk[x] {
      var x :| 0 <= x < |b| && b[x] == ss && rk[Succ(x, |b|)] == rk[x];
      FlatMeansConstant(b, rk, x);
      NothingToScan(b, rk, ss, sl, sr);
      PredsNone(b, ss);
      BucketHolds(b, f0, ss * 256 + ss, 0);
      BucketHolds(b, f0, ss * 256 + ss, |b| - 1);
      StartsBounded(b, ss * 256 + ss + 1);
    } else {
      ExactlyFilled(b, rk, f0, done, ss, sl, sr, ss);
    }
  }

  /** Step 2: both scans, then the flags. */
  method CopyColumn(ghost b: seq<Byte>, ghost rk: seq<int>, ptr: array<int>, block: seq<Byte>, bigDone: seq<bool>,
                    ftab: array<int>, nblock: int, ss: int, ghost marked0: set<int>)
    returns (ghost marked: set<int>)
    requires nblock == |b| == ptr.Length && |b| <= |block| && block[..|b|] == b && ftab != ptr
    requires 0 <= ss < 256 && |bigDone| == 256 && !bigDone[ss]
    requires Sorting(b, rk, ptr[..], marked0, bigDone) && TableOk(b, ftab[..], marked0)
    requires forall j | 0 <= j < 256 && j != ss :: Flagged(marked0, ss, j)
    modifies ptr, ftab
    ensures Sorting(b, rk, ptr[..], marked, bigDone) && TableOk(b, ftab[..], marked)
    ensures marked == marked0 + Column(ss)
  {
    hide Sorting, TableOk, S, LeftScanning, RightScanning, LeftDone, Setting, BigSorted, Queue, LeftBase, RightBase,
         Flagged, Column, Preds, Expected, Scanned;
    ghost var f0 := ptr[..];
    var copyStart := new int[256];
    var copyEnd := new int[256];
    var j := 0;
    while j <= 255
      invariant 0 <= j <= 256
      invariant ptr[..] == f0 && TableOk(b, ftab[..], marked0)
      invariant forall t | 0 <= t < j :: copyStart[t] == S(b, t * 256 + ss) && copyEnd[t] == S(b, t * 256 + ss + 1) - 1
    {
      TableRead(b, ftab[..], marked0, j * 256 + ss);
      TableRead(b, ftab[..], marked0, j * 256 + ss + 1);
      copyStart[j] := Clear(ftab[j * 256 + ss]);
      copyEnd[j] := Clear(ftab[j * 256 + ss + 1]) - 1;
      j := j + 1;
    }
    TableRead(b, ftab[..], marked0, ss * 256);
    TableRead(b, ftab[..], marked0, (ss + 1) * 256);
    BigBucketReady(b, rk, f0, marked0, bigDone, ss);
    LeftStarts(b, rk, f0, bigDone, ss, copyStart[..]);
    ghost var sl, sr, ends;
    sl, ends := ScanLeft(b, rk, ptr, block, bigDone, copyStart, nblock, ss, Clear(ftab[ss * 256]));
    LeftHandsOver(b, rk, f0, bigDone, ss, ptr[..], copyStart[..], sl, ends);
    RightStarts(b, rk, f0, bigDone, ss, sl, ptr[..], copyEnd[..]);
    sr, ends := ScanRight(b, rk, f0, sl, ptr, block, bigDone, copyEnd, nblock, ss, Clear(ftab[(ss + 1) * 256]) - 1);
    RightHandsOver(b, rk, f0, bigDone, ss, sl, ptr[..], copyEnd[..], sr, ends);
    SortingBasics(b, rk, f0, marked0, bigDone);
    CursorsMeet(b, rk, f0, bigDone, ss, sl, sr);
    // assertion 1007
    assert copyStart[ss] - 1 == copyEnd[ss] || (copyStart[ss] == 0 && copyEnd[ss] == nblock - 1);
    marked := marked0 + Column(ss);
    ColumnDone(b, rk, f0, marked0, marked, bigDone, ss, sl, sr);
    MarkColumn(b, ftab, ss, marked0);
  }

  lemma LeftHandsOver(b: seq<Byte>, rk: seq<int>, f0: seq<int>, done: seq<bool>, ss: int,
                      f: seq<int>, copyStart: seq<int>, sl: seq<int>, j: int)
    requires LeftScanning(b, rk, f0, done, ss, f, copyStart, sl, j) && BigSorted(b, rk, f0, ss)
    requires sl == Queue(b, ss, LeftBase(b, f0, ss), sl)
    ensures LeftDone(b, rk, f0, done, ss, sl) && InRange(sl, |b|) && Setting(b, f0, done, ss)
    ensures f == Expected(b, f0, done, ss, sl, []) && |copyStart| == 256
    ensures copyStart[ss] == S(b, ss * 256 + ss) + |Preds(b, sl, ss)|
  {
    hide S, QueueOk, Queue, LeftBase, BigSorted, Preds, Expected;
  }

  lemma RightHandsOver(b: seq<Byte>, rk: seq<int>, f0: seq<int>, done: seq<bool>, ss: int, sl: seq<int>,
                       f: seq<int>, copyEnd: seq<int>, sr: seq<int>, j: int)
    requires RightScanning(b, rk, f0, done, ss, sl, f, copyEnd, sr, j)
    requires |f0| == |b| > 0 && 0 <= ss < 256 && InRange(RightBase(b, f0, ss), |b|) && InRange(sr, |b|)
    requires sr == Queue(b, ss, RightBase(b, f0, ss), sr)
    ensures |rk| == |b| && Scanned(b, rk, ss, sl, sr) && Setting(b, f0, done, ss)
    ensures InRange(sl, |b|)
    ensures f == Expected(b, f0, done, ss, sl, sr) && |copyEnd| == 256
    ensures copyEnd[ss] == S(b, ss * 256 + ss + 1) - 1 - |Preds(b, sr, ss)|
  {
    hide S, QueueOk, Queue, RightBase, BigSorted, Preds, Expected, LeftDone, Scanned;
    RightBasics(b, rk, f0, done, ss, sl, f, copyEnd, sr, j);
    BothComplete(b, rk, f0, done, ss, sl, sr);
  }

  /** Flags every small bucket [j, ss]. */
  method MarkColumn(ghost b: seq<Byte>, ftab: array<int>, ss: int, ghost marked: set<int>)
    requires TableOk(b, ftab[..], marked) && 0 <= ss < 256
    modifies ftab
    ensures TableOk(b, ftab[..], marked + Column(ss))
  {
    hide TableOk;
    ghost var sofar := marked;
    ghost var added: set<int> := {};
    var j := 0;
    while j <= 255
      invariant 0 <= j <= 256
      invariant added == set t | 0 <= t < j :: t * 256 + ss
      invariant sofar == marked + added
      invariant TableOk(b, ftab[..], sofar)
    {
      MarkBucket(b, ftab, j * 256 + ss, sofar);
      sofar := sofar + {j * 256 + ss};
      added := added + {j * 256 + ss};
      j := j + 1;
    }
  }

  // ---- step 3 ----

  /** Step 3: the quadrants of big bucket ss record its order, as far as 16 bits allow. */
  method UpdateQuadrants(ghost b: seq<Byte>, ghost rk: seq<int>, ptr: array<int>, quadrant: array<int>,
                         ftab: array<int>, nblock: int, ss: int, ghost marked: set<int>, ghost done: seq<bool>)
    requires nblock == |b| == ptr.Length && quadrant != ptr && quadrant != ftab && 0 <= ss < 256
    requires Sorting(b, rk, ptr[..], marked, done) && TableOk(b, ftab[..], marked)
    requires forall j | 0 <= j < 256 :: Flagged(marked, ss, j)
    requires |b| > BZ_N_OVERSHOOT && QuadrantsOrder(b, quadrant[..])
    modifies quadrant
    ensures QuadrantsOrder(b, quadrant[..])
  {
    hide Sorting, TableOk, S, QuadrantsOrder, Flagged, QuadrantsUpdated;
    ghost var f, q0 := ptr[..], quadrant[..];
    TableRead(b, ftab[..], marked, ss * 256);
    TableRead(b, ftab[..], marked, (ss + 1) * 256);
    TableSmall(b, ftab[..], marked);
    StartsBounded(b, (ss + 1) * 256);
    StartsGrow(b, ss * 256, (ss + 1) * 256);
    SortingBasics(b, rk, f, marked, done);
    QuadrantSize(b, q0);
    var bbStart := Clear(ftab[ss * 256]);
    var bbSize := Clear(ftab[(ss + 1) * 256]) - bbStart;
    var shifts, unit := 0, 1;
    while bbSize / unit > 65534
      invariant 0 <= shifts && unit >= 1
      invariant unit == Bits.Pow2(shifts) && quadrant[..] == q0
      decreases bbSize / unit
    {
      HalfIsLess(bbSize, unit);
      shifts, unit := shifts + 1, 2 * unit;
    }
    var j := bbSize - 1;
    NothingUpdated(b, f, q0, bbStart, bbSize, unit);
    while j >= 0
      invariant -1 <= j < bbSize
      invariant QuadrantsUpdated(b, f, q0, quadrant[..], bbStart, bbSize, unit, j + 1)
    {
      ghost var q := quadrant[..];
      UpdateSize(b, f, q0, q, bbStart, bbSize, unit, j + 1);
      var a2update := ptr[bbStart + j];
      var qVal := j / unit;
      quadrant[a2update] := qVal;
      if a2update < BZ_N_OVERSHOOT {
        quadrant[a2update + nblock] := qVal;
      }
      assert quadrant[..] == WithQuadrant(q, a2update, nblock, qVal);
      UpdateOne(b, f, q0, q, bbStart, bbSize, unit, j);
      j := j - 1;
    }
    DivisionOrder(bbSize - 1, bbSize, unit);
    assert bbSize > 0 ==> (bbSize - 1) / unit <= 65535;   // assertion 1002
    QuadrantsNow(b, rk, f, q0, quadrant[..], marked, done, ss, bbStart, bbSize, unit);
  }

  lemma HalfIsLess(x: int, unit: int)
    requires unit >= 1 && x / unit > 0
    ensures x / (2 * unit) < x / unit
  {
    var h := x / (2 * unit);
    assert x >= h * (2 * unit);
    assert h * (2 * unit) == (2 * h) * unit;
    DivisionLower(x, unit, 2 * h);
  }

  lemma DivisionLower(x: int, unit: int, k: int)
    requires unit >= 1 && x >= k * unit
    ensures x / unit >= k
  {
    var d := x / unit;
    assert x < (d + 1) * unit;
    if d < k { Scale(d + 1, k, unit); }
  }

  lemma DivisionOrder(x: int, y: int, unit: int)
    requires unit >= 1 && x <= y
    ensures x / unit <= y / unit
  {
    var d := x / unit;
    assert x >= d * unit;
    DivisionLower(y, unit, d);
  }

  ghost function WithQuadrant(q: seq<int>, a: int, n: int, v: int): seq<int>
    requires 0 <= a < |q| && (a < BZ_N_OVERSHOOT ==> 0 <= a + n < |q|)
  {
    if a < BZ_N_OVERSHOOT then q[a := v][a + n := v] else q[a := v]
  }

  /** The positions i and behind of the big bucket have their new quadrants. */
  ghost predicate QuadrantsUpdated(b: seq<Byte>, f: seq<int>, q0: seq<int>, q: seq<int>,
                                   start: int, size: int, unit: int, i: int)
  {
    && 1 <= unit && |b| > BZ_N_OVERSHOOT && |f| == |b| && NoDuplicates(f)
    && 0 <= start && 0 <= i <= size && start + size <= |b|
    && |q| == |q0| == |b| + BZ_N_OVERSHOOT
    && (forall p | 0 <= p < |b| :: 0 <= f[p] < |b|)
    && (forall k | 0 <= k < BZ_N_OVERSHOOT :: q[|b| + k] == q[k])
    && (forall p | i <= p < size :: q[f[start + p]] == p / unit)
    && (forall p | 0 <= p < |b| && !(start + i <= p < start + size) :: q[f[p]] == q0[f[p]])
  }

  lemma QuadrantSize(b: seq<Byte>, q: seq<int>)
    requires |b| > BZ_N_OVERSHOOT && QuadrantsOrder(b, q)
    ensures |q| == |b| + BZ_N_OVERSHOOT
    ensures forall k | 0 <= k < BZ_N_OVERSHOOT :: q[|b| + k] == q[k]
  {
  }

  lemma NothingUpdated(b: seq<Byte>, f: seq<int>, q: seq<int>, start: int, size: int, unit: int)
    requires 1 <= unit && |b| > BZ_N_OVERSHOOT && Radixed(b, f)
    requires 0 <= start && 0 <= size && start + size <= |b|
    requires |q| == |b| + BZ_N_OVERSHOOT && forall k | 0 <= k < BZ_N_OVERSHOOT :: q[|b| + k] == q[k]
    ensures QuadrantsUpdated(b, f, q, q, start, size, unit, size)
  {
    hide S, Key2;
  }

  lemma UpdateSize(b: seq<Byte>, f: seq<int>, q0: seq<int>, q: seq<int>, start: int, size: int, unit: int, i: int)
    requires QuadrantsUpdated(b, f, q0, q, start, size, unit, i)
    ensures |q| == |b| + BZ_N_OVERSHOOT && |f| == |b| && forall p | 0 <= p < |b| :: 0 <= f[p] < |b|
  {
  }

  lemma UpdateOne(b: seq<Byte>, f: seq<int>, q0: seq<int>, q: seq<int>, start: int, size: int, unit: int, j: int)
    requires QuadrantsUpdated(b, f, q0, q, start, size, unit, j + 1) && 0 <= j
    ensures QuadrantsUpdated(b, f, q0, WithQuadrant(q, f[start + j], |b|, j / unit), start, size, unit, j)
  {
  }

  lemma QuadrantsNow(b: seq<Byte>, rk: seq<int>, f: seq<int>, q0: seq<int>, q: seq<int>, marked: set<int>,
                     done: seq<bool>, ss: int, start: int, size: int, unit: int)
    requires Sorting(b, rk, f, marked, done) && 0 <= ss < 256
    requires forall j | 0 <= j < 256 :: Flagged(marked, ss, j)
    requires |b| > BZ_N_OVERSHOOT && QuadrantsOrder(b, q0)
    requires start == S(b, ss * 256) && start + size == S(b, (ss + 1) * 256)
    requires QuadrantsUpdated(b, f, q0, q, start, size, unit, 0)
    ensures QuadrantsOrder(b, q)
  {
    hide Sorting, S, Ranks, Key2, Flagged;
    SortingBasics(b, rk, f, marked, done);
    forall i, j | 0 <= i < |b| && 0 <= j < |b| && b[i] == b[j] && q[i] < q[j] ensures NotAfter(b, i, j) {
      QuadrantPair(b, rk, f, q0, q, marked, done, ss, start, size, unit, i, j);
    }
  }

  lemma QuadrantPair(b: seq<Byte>, rk: seq<int>, f: seq<int>, q0: seq<int>, q: seq<int>, marked: set<int>,
                     done: seq<bool>, ss: int, start: int, size: int, unit: int, i: int, j: int)
    requires Sorting(b, rk, f, marked, done) && 0 <= ss < 256
    requires forall j | 0 <= j < 256 :: Flagged(marked, ss, j)
    requires |b| > BZ_N_OVERSHOOT && QuadrantsOrder(b, q0)
    requires start == S(b, ss * 256) && start + size == S(b, (ss + 1) * 256)
    requires QuadrantsUpdated(b, f, q0, q, start, size, unit, 0)
    requires 0 <= i < |b| && 0 <= j < |b| && b[i] == b[j] && q[i] < q[j]
    ensures NotAfter(b, i, j)
  {
    hide Sorting, S, Ranks, Flagged, Radixed;
    SortingBasics(b, rk, f, marked, done);
    RadixedSize(b, f);
    var p := PermutationIndex(f, |b|, i);
    var p' := PermutationIndex(f, |b|, j);
    RangeHolds(b, f, ss * 256, (ss + 1) * 256, p);
    RangeHolds(b, f, ss * 256, (ss + 1) * 256, p');
    if b[i] == ss {
      assert q[f[start + (p - start)]] == (p - start) / unit && q[f[start + (p' - start)]] == (p' - start) / unit;
      if p' <= p { DivisionOrder(p' - start, p - start, unit); }
      BigInOrder(b, rk, f, marked, done, ss, p, p');
      RanksEqual(b, |b|, rk, i, j);
    } else {
      assert q[f[p]] == q0[f[p]] && q[f[p']] == q0[f[p']];
    }
  }

  lemma BigInOrder(b: seq<Byte>, rk: seq<int>, f: seq<int>, marked: set<int>, done: seq<bool>, ss: int, p: int, p': int)
    requires Sorting(b, rk, f, marked, done) && 0 <= ss < 256 && |rk| == |b| == |f|
    requires forall j | 0 <= j < 256 :: Flagged(marked, ss, j)
    requires 0 <= p < p' < |b| && 0 <= f[p] < |b| && 0 <= f[p'] < |b| && b[f[p]] == ss
    ensures rk[f[p]] <= rk[f[p']]
  {
    hide S, Ranks;
    SortingBasics(b, rk, f, marked, done);
    RadixedIsBucketed(b, f);
    BucketedSorted(Keys(b), f, p, p');
    if Key2(b, f[p]) < Key2(b, f[p']) {
      KeyOrder(b, rk, f[p], f[p']);
    } else {
      assert Flagged(marked, ss, b[Succ(f[p], |b|)]);
      assert BucketSorted(b, rk, f, Key2(b, f[p]));
    }
  }

  // ---- the sorter ----

  /** Which big buckets are done after i rounds. */
  ghost predicate DoneUpTo(order: seq<int>, done: seq<bool>, i: int) {
    && |order| == |done| == 256 && IsPermutation(order, 256) && 0 <= i <= 256
    && forall k | 0 <= k < 256 :: done[order[k]] <==> k < i
  }

  lemma NextNotDone(order: seq<int>, done: seq<bool>, i: int)
    requires DoneUpTo(order, done, i) && i < 256
    ensures |order| == |done| == 256 && 0 <= order[i] < 256 && !done[order[i]]
    ensures DoneUpTo(order, done[order[i] := true], i + 1)
  {
  }

  lemma AllDone(order: seq<int>, done: seq<bool>)
    requires DoneUpTo(order, done, 256)
    ensures |done| == 256 && forall c | 0 <= c < 256 :: done[c]
  {
    forall c | 0 <= c < 256 ensures done[c] {
      var k := PermutationIndex(order, 256, c);
    }
  }

  lemma BigBucketDone(b: seq<Byte>, rk: seq<int>, f: seq<int>, marked: set<int>, done: seq<bool>, ss: int)
    requires Sorting(b, rk, f, marked, done) && 0 <= ss < 256 && |done| == 256
    requires forall j | 0 <= j < 256 :: Flagged(marked, ss, j) && Flagged(marked, j, ss)
    ensures Sorting(b, rk, f, marked, done[ss := true])
  {
    hide Ranks, Radixed, BucketSorted, Flagged;
  }

  lemma ColumnFlagged(marked0: set<int>, ss: int)
    requires 0 <= ss < 256
    ensures forall c, j :: Flagged(marked0, c, j) ==> Flagged(marked0 + Column(ss), c, j)
    ensures forall t | 0 <= t < 256 :: Flagged(marked0 + Column(ss), t, ss)
  {
    forall t | 0 <= t < 256 ensures Flagged(marked0 + Column(ss), t, ss) {
      assert t * 256 + ss in Column(ss);
    }
  }

  /** mainSort: ptr becomes a sorted order of the rotations of the block, for blocks longer than the
      overshoot area, unless the work budget runs out. */
  method MainSort(ptr: array<int>, block: array<Byte>, quadrant: array<int>, ftab: array<int>, nblock: int, budget: int)
    returns (left: int)
    requires BZ_N_OVERSHOOT < nblock <= MAX_BLOCK && ptr.Length == nblock && budget >= 0
    requires block.Length == quadrant.Length == nblock + BZ_N_OVERSHOOT && ftab.Length == 65537
    requires ptr != quadrant && ptr != ftab && quadrant != ftab
    requires block as object != ptr && block as object != quadrant && block as object != ftab
    modifies ptr, block, quadrant, ftab
    ensures block[..nblock] == old(block[..nblock])
    ensures left <= budget
    ensures IsPermutation(ptr[..], nblock)
    ensures left >= 0 ==> IsRotationOrder(block[..nblock], ptr[..])
  {
    hide Overshot, QuadrantsOrder, TableOk, Sorting, Radixed, S, Keys, Start, Count, Bucketed, Ranks, RankOk,
         IsRotationOrder, DoneUpTo, Flagged, Column, IsPermutation, BigFreqs;
    ghost var b := block[..nblock];
    left := budget;
    CountKeys(b, block, quadrant, ftab, nblock);
    FillOvershoot(b, block, quadrant, nblock);
    SumKeys(Keys(b), ftab);
    KeysSize(b);
    PlaceRotations(b, block, ftab, ptr, nblock);
    RadixedIsBucketed(b, ptr[..]);
    NothingFlagged(b, ftab[..]);
    ghost var rk := RanksExist(b, nblock);
    RankFacts(b, rk);
    var runningOrder := RunningOrder(b, ftab);
    var bigDone := new bool[256](_ => false);
    ghost var order := runningOrder[..];
    SortingStarts(b, rk, ptr[..], bigDone[..]);
    NoneDone(order, bigDone[..]);
    ghost var marked: set<int> := {};
    var i := 0;
    while i <= 255
      invariant 0 <= i <= 256 && 0 <= left <= budget
      invariant block[..nblock] == b && runningOrder[..] == order
      invariant Overshot(b, block[..]) && QuadrantsOrder(b, quadrant[..])
      invariant Sorting(b, rk, ptr[..], marked, bigDone[..]) && TableOk(b, ftab[..], marked)
      invariant DoneUpTo(order, bigDone[..], i)
    {
      NextNotDone(order, bigDone[..], i);
      var ss := runningOrder[i];
      ghost var done := bigDone[..];
      // Step 1
      left, marked := SortSmallBuckets(b, rk, ptr, block[..], quadrant[..], ftab, nblock, ss, left, marked, done);
      if left < 0 { return; }
      assert !bigDone[ss];   // assertion 1006
      // Step 2
      ColumnFlagged(marked, ss);
      marked := CopyColumn(b, rk, ptr, block[..], bigDone[..], ftab, nblock, ss, marked);
      // Step 3
      BigBucketDone(b, rk, ptr[..], marked, done, ss);
      bigDone[ss] := true;
      assert bigDone[..] == done[ss := true];
      if i < 255 {
        UpdateQuadrants(b, rk, ptr, quadrant, ftab, nblock, ss, marked, bigDone[..]);
      }
      i := i + 1;
    }
    AllDone(order, bigDone[..]);
    SortingEnds(b, rk, ptr[..], marked, bigDone[..]);
    OrderPermutes(b, ptr[..]);
  }

  lemma OrderPermutes(b: seq<Byte>, f: seq<int>)
    requires |b| > 0 && IsRotationOrder(b, f)
    ensures IsPermutation(f, |b|)
  {
  }

  lemma NothingFlagged(b: seq<Byte>, ftab: seq<int>)
    requires |b| <= MAX_BLOCK && |ftab| == 65537 && forall c | 0 <= c <= 65536 :: ftab[c] == Start(Keys(b), c)
    ensures TableOk(b, ftab, {})
  {
    hide Start, Keys;
  }

  lemma RankFacts(b: seq<Byte>, rk: seq<int>)
    requires |b| > BZ_N_OVERSHOOT && Ranks(b, |b|, rk) && forall x | 0 <= x < |b| :: 0 <= rk[x] <= |b|
    ensures RankOk(b, rk)
  {
  }

  lemma NoneDone(order: seq<int>, done: seq<bool>)
    requires |order| == |done| == 256 && IsPermutation(order, 256) && forall c | 0 <= c < 256 :: !done[c]
    ensures DoneUpTo(order, done, 0)
  {
  }
}
