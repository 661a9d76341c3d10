/** Step 2 of mainSort on the pointer array: what the array holds while the two scans write into the
    small buckets [t, ss], and why they come out full and sorted. */
module CopyBuckets {
  import opened Permutations
  import opened Rotations
  import opened Buckets
  import opened CopyScan

  /** The two-byte key of a rotation. */
  function Key2(b: seq<Byte>, i: int): (k: int)
    requires 0 <= i < |b|
    ensures 0 <= k < 65536 && k / 256 == b[i] && k % 256 == b[Succ(i, |b|)]
  {
    (b[i] as int) * 256 + b[Succ(i, |b|)]
  }

  ghost function Keys(b: seq<Byte>): (keys: seq<int>)
    ensures |keys| == |b| && forall i | 0 <= i < |b| :: keys[i] == Key2(b, i) && 0 <= keys[i] < 65536
  {
    seq(|b|, i requires 0 <= i < |b| => Key2(b, i))
  }

  /** The first position of small bucket sb. */
  ghost function S(b: seq<Byte>, sb: nat): nat {
    Start(Keys(b), sb)
  }

  /** f lists the rotations bucket by bucket. */
  ghost predicate Radixed(b: seq<Byte>, f: seq<int>) {
    && IsPermutation(f, |b|)
    && forall p | 0 <= p < |b| :: S(b, Key2(b, f[p])) <= p < S(b, Key2(b, f[p]) + 1)
  }

  lemma RadixedIsBucketed(b: seq<Byte>, f: seq<int>)
    ensures Radixed(b, f) <==> Bucketed(Keys(b), f)
  {
    hide Start;
    if Bucketed(Keys(b), f) {
      forall p | 0 <= p < |b| ensures S(b, Key2(b, f[p])) <= p < S(b, Key2(b, f[p]) + 1) {
        assert InBucket(Keys(b), Keys(b)[f[p]], p);
      }
    }
  }

  lemma BucketHolds(b: seq<Byte>, f: seq<int>, sb: nat, p: int)
    requires Radixed(b, f) && 0 <= p < |b|
    ensures S(b, sb) <= p < S(b, sb + 1) <==> Key2(b, f[p]) == sb
  {
    hide Start;
    RadixedIsBucketed(b, f);
    BucketedContent(Keys(b), f, sb, p);
  }

  lemma StartsGrow(b: seq<Byte>, sb: nat, sb': nat)
    requires sb <= sb'
    ensures S(b, sb) <= S(b, sb')
  {
    StartMonotonic(Keys(b), sb, sb');
  }

  lemma StartsBounded(b: seq<Byte>, sb: nat)
    requires sb <= 65536
    ensures 0 <= S(b, sb) <= |b|
    ensures S(b, 65536) == |b|
  {
    StartTotal(Keys(b), 65536);
    StartMonotonic(Keys(b), sb, 65536);
  }

  /** A range of small buckets. */
  lemma RangeHolds(b: seq<Byte>, f: seq<int>, lo: nat, hi: nat, p: int)
    requires Radixed(b, f) && 0 <= p < |b| && lo <= hi
    ensures S(b, lo) <= p < S(b, hi) <==> lo <= Key2(b, f[p]) < hi
  {
    hide Start;
    var k := Key2(b, f[p]);
    if k < lo { StartsGrow(b, k + 1, lo); } else { StartsGrow(b, lo, k); }
    if k < hi { StartsGrow(b, k + 1, hi); } else { StartsGrow(b, hi, k); }
  }

  lemma KeysAgree(b: seq<Byte>, x: int, y: int)
    requires 0 <= x < |b| && 0 <= y < |b| && Key2(b, x) == Key2(b, y)
    ensures Cmp(b, x, y, 2) == 0
  {
    assert At(b, x + 1) == b[Succ(x, |b|)] && At(b, y + 1) == b[Succ(y, |b|)];
  }

  lemma KeyOrder(b: seq<Byte>, rk: seq<int>, x: int, y: int)
    requires |b| > 1 && Ranks(b, |b|, rk)
    requires 0 <= x < |b| && 0 <= y < |b| && Key2(b, x) < Key2(b, y)
    ensures rk[x] < rk[y]
  {
    assert At(b, x + 1) == b[Succ(x, |b|)] && At(b, y + 1) == b[Succ(y, |b|)];
    assert Cmp(b, x, y, 2) < 0;
    CmpShorter(b, x, y, 2, |b|);
  }

  // ---- the contents during the scans ----

  ghost predicate Setting(b: seq<Byte>, f0: seq<int>, done: seq<bool>, ss: int) {
    |b| > 1 && Radixed(b, f0) && |done| == 256 && 0 <= ss < 256
  }

  /** Every rotation seen starts with ss, and none was seen twice. */
  ghost predicate Seen(b: seq<Byte>, ss: int, seen: seq<int>) {
    InRange(seen, |b|) && NoDuplicates(seen) && forall i | 0 <= i < |seen| :: b[seen[i]] == ss
  }

  /** Entry p after the left scan has seen sl and the right scan sr: each undone bucket [t, ss] has
      been filled from its start with predecessors from sl, from its end with those from sr. */
  ghost function Expect(b: seq<Byte>, f0: seq<int>, done: seq<bool>, ss: int, sl: seq<int>, sr: seq<int>, p: int): int
    requires Setting(b, f0, done, ss) && InRange(sl, |b|) && InRange(sr, |b|) && 0 <= p < |b|
  {
    var key := Key2(b, f0[p]);
    var u, v := Preds(b, sl, key / 256), Preds(b, sr, key / 256);
    if key % 256 != ss || done[key / 256] then f0[p]
    else if p - S(b, key) < |u| then u[p - S(b, key)]
    else if S(b, key + 1) - 1 - p < |v| then v[S(b, key + 1) - 1 - p]
    else f0[p]
  }

  ghost function Expected(b: seq<Byte>, f0: seq<int>, done: seq<bool>, ss: int, sl: seq<int>,
                          sr: seq<int>): (f: seq<int>)
    requires Setting(b, f0, done, ss) && InRange(sl, |b|) && InRange(sr, |b|)
    ensures |f| == |b|
    ensures forall p | 0 <= p < |b| :: f[p] == Expect(b, f0, done, ss, sl, sr, p)
  {
    seq(|b|, p requires 0 <= p < |b| => Expect(b, f0, done, ss, sl, sr, p))
  }

  lemma NothingSeen(b: seq<Byte>, f0: seq<int>, done: seq<bool>, ss: int)
    requires Setting(b, f0, done, ss)
    ensures Expected(b, f0, done, ss, [], []) == f0
  {
    hide S, Radixed;
    RadixedSize(b, f0);
    forall p | 0 <= p < |b| ensures Expect(b, f0, done, ss, [], [], p) == f0[p] {
      BucketHolds(b, f0, Key2(b, f0[p]), p);
      PredsNone(b, Key2(b, f0[p]) / 256);
    }
  }

  lemma PredsNone(b: seq<Byte>, t: int)
    ensures InRange([], |b|) && Preds(b, [], t) == []
  {
  }

  lemma RadixedSize(b: seq<Byte>, f: seq<int>)
    requires Radixed(b, f)
    ensures |f| == |b| && IsPermutation(f, |b|) && NoDuplicates(f) && forall p | 0 <= p < |b| :: 0 <= f[p] < |b|
  {
  }

  /** The slice of a radixed sequence that is bucket sb, as a duplicate-free listing of the rotations
      with that key. */
  lemma BucketListing(b: seq<Byte>, f: seq<int>, sb: nat)
    requires Radixed(b, f) && sb < 65536
    ensures S(b, sb) <= S(b, sb + 1) <= |f| == |b|
    ensures var w := f[S(b, sb)..S(b, sb + 1)];
            NoDuplicates(w) && forall k :: k in w <==> 0 <= k < |b| && Key2(b, k) == sb
  {
    hide S, Key2, Radixed, NoDuplicates;
    RadixedSize(b, f);
    StartsBounded(b, sb);
    StartsBounded(b, sb + 1);
    StartsGrow(b, sb, sb + 1);
    var lo, hi := S(b, sb), S(b, sb + 1);
    var w := f[lo..hi];
    SliceDistinct(f, lo, hi);
    forall k ensures k in w <==> 0 <= k < |b| && Key2(b, k) == sb {
      if k in w {
        var i :| 0 <= i < |w| && w[i] == k;
        BucketHolds(b, f, sb, lo + i);
      }
      if 0 <= k < |b| && Key2(b, k) == sb {
        var p := PermutationIndex(f, |b|, k);
        BucketHolds(b, f, sb, p);
        assert w[p - lo] == k;
      }
    }
  }

  lemma SliceDistinct(f: seq<int>, lo: int, hi: int)
    requires NoDuplicates(f) && 0 <= lo <= hi <= |f|
    ensures NoDuplicates(f[lo..hi])
  {
    var w := f[lo..hi];
    forall i, j | 0 <= i < j < |w| ensures w[i] != w[j] {
      assert w[i] == f[lo + i] && w[j] == f[lo + j];
    }
  }

  /** Predecessors with first byte t of rotations that start with ss belong to bucket [t, ss]. */
  lemma PredsKeyed(b: seq<Byte>, ss: int, seen: seq<int>, t: int, k: int)
    requires Seen(b, ss, seen) && k in Preds(b, seen, t)
    ensures 0 <= k < |b| && Key2(b, k) == t * 256 + ss
  {
    PredsMember(b, seen, t, k);
  }

  /** There is room for them. */
  lemma Room(b: seq<Byte>, f0: seq<int>, done: seq<bool>, ss: int, seen: seq<int>, t: int)
    requires Setting(b, f0, done, ss) && Seen(b, ss, seen) && 0 <= t < 256
    ensures |Preds(b, seen, t)| <= S(b, t * 256 + ss + 1) - S(b, t * 256 + ss)
  {
    hide S, Key2, Radixed;
    var sb := t * 256 + ss;
    BucketListing(b, f0, sb);
    var w, u := f0[S(b, sb)..S(b, sb + 1)], Preds(b, seen, t);
    PredsDistinct(b, seen, t);
    forall k | k in u ensures k in Elements(w) {
      PredsKeyed(b, ss, seen, t, k);
    }
    Pigeonhole(u, Elements(w));
    NoDuplicatesSize(w);
  }

  /** The effect of one step of the left scan. */
  lemma LeftStep(b: seq<Byte>, f0: seq<int>, done: seq<bool>, ss: int, sl: seq<int>, x: int)
    requires Setting(b, f0, done, ss) && Seen(b, ss, sl + [x]) && InRange(sl, |b|) && 0 <= x < |b|
    ensures var k := Pred(x, |b|);
            var t := b[k];
            var pos := S(b, t * 256 + ss) + |Preds(b, sl, t)|;
            && 0 <= pos < S(b, t * 256 + ss + 1) <= |b|
            && Expected(b, f0, done, ss, sl + [x], []) ==
               (if done[t] then Expected(b, f0, done, ss, sl, []) else Expected(b, f0, done, ss, sl, [])[pos := k])
  {
    hide S, Key2, Radixed, Preds;
    var k := Pred(x, |b|);
    var t := b[k];
    var sb := t * 256 + ss;
    var pos := S(b, sb) + |Preds(b, sl, t)|;
    Room(b, f0, done, ss, sl + [x], t);
    PredsStep(b, sl, x, t);
    BucketListing(b, f0, sb);
    var f, f' := Expected(b, f0, done, ss, sl, []), Expected(b, f0, done, ss, sl + [x], []);
    assert 0 <= pos < S(b, sb + 1) <= |b|;
    forall p | 0 <= p < |b| ensures f'[p] == if p == pos && !done[t] then k else f[p] {
      LeftStepAt(b, f0, done, ss, sl, x, p);
    }
  }

  lemma LeftStepAt(b: seq<Byte>, f0: seq<int>, done: seq<bool>, ss: int, sl: seq<int>, x: int, p: int)
    requires Setting(b, f0, done, ss) && Seen(b, ss, sl + [x]) && InRange(sl, |b|) && 0 <= x < |b|
    requires 0 <= p < |b|
    ensures var k := Pred(x, |b|);
            var t := b[k];
            var pos := S(b, t * 256 + ss) + |Preds(b, sl, t)|;
            pos < S(b, t * 256 + ss + 1) ==>
            Expect(b, f0, done, ss, sl + [x], [], p) ==
               if p == pos && !done[t] then k else Expect(b, f0, done, ss, sl, [], p)
  {
    hide S, Radixed, Preds, Key2, Seen;
    RadixedSize(b, f0);
    SeenRange(b, ss, sl + [x]);
    var t := b[Pred(x, |b|)];
    BucketHolds(b, f0, t * 256 + ss, p);
    var key := Key2(b, f0[p]);
    PredsStep(b, sl, x, key / 256);
    PredsNone(b, key / 256);
  }

  lemma SeenRange(b: seq<Byte>, ss: int, seen: seq<int>)
    requires Seen(b, ss, seen)
    ensures InRange(seen, |b|)
  {
  }

  /** The effect of one step of the right scan. */
  lemma RightStep(b: seq<Byte>, f0: seq<int>, done: seq<bool>, ss: int, sl: seq<int>, sr: seq<int>, x: int)
    requires Setting(b, f0, done, ss) && Seen(b, ss, sl + (sr + [x])) && InRange(sl, |b|) && InRange(sr, |b|)
             && 0 <= x < |b|
    ensures var k := Pred(x, |b|);
            var t := b[k];
            var pos := S(b, t * 256 + ss + 1) - 1 - |Preds(b, sr, t)|;
            && 0 <= S(b, t * 256 + ss) + |Preds(b, sl, t)| <= pos < |b|
            && InRange(sr + [x], |b|)
            && Expected(b, f0, done, ss, sl, sr + [x]) ==
               (if done[t] then Expected(b, f0, done, ss, sl, sr) else Expected(b, f0, done, ss, sl, sr)[pos := k])
  {
    hide S, Key2, Radixed, Preds;
    var k := Pred(x, |b|);
    var t := b[k];
    var sb := t * 256 + ss;
    var pos := S(b, sb + 1) - 1 - |Preds(b, sr, t)|;
    Room(b, f0, done, ss, sl + (sr + [x]), t);
    PredsStep(b, sr, x, t);
    PredsConcat(b, sl, sr + [x], t);
    BucketListing(b, f0, sb);
    var f, f' := Expected(b, f0, done, ss, sl, sr), Expected(b, f0, done, ss, sl, sr + [x]);
    assert S(b, sb) + |Preds(b, sl, t)| <= pos < |b|;
    forall p | 0 <= p < |b| ensures f'[p] == if p == pos && !done[t] then k else f[p] {
      RightStepAt(b, f0, done, ss, sl, sr, x, p);
    }
  }

  lemma RightStepAt(b: seq<Byte>, f0: seq<int>, done: seq<bool>, ss: int, sl: seq<int>, sr: seq<int>, x: int, p: int)
    requires Setting(b, f0, done, ss) && InRange(sl, |b|) && InRange(sr, |b|) && 0 <= x < |b| && InRange(sr + [x], |b|)
    requires 0 <= p < |b|
    ensures var k := Pred(x, |b|);
            var t := b[k];
            var pos := S(b, t * 256 + ss + 1) - 1 - |Preds(b, sr, t)|;
            S(b, t * 256 + ss) + |Preds(b, sl, t)| <= pos ==>
            Expect(b, f0, done, ss, sl, sr + [x], p) ==
               if p == pos && !done[t] then k else Expect(b, f0, done, ss, sl, sr, p)
  {
    hide S, Radixed, Preds, Key2;
    RadixedSize(b, f0);
    var t := b[Pred(x, |b|)];
    BucketHolds(b, f0, t * 256 + ss, p);
    var key := Key2(b, f0[p]);
    PredsStep(b, sr, x, key / 256);
  }

  // ---- the two bases ----

  /** Step 1 is complete for ss: every small bucket [ss, j] with j != ss is in rotation order. */
  ghost predicate BigSorted(b: seq<Byte>, rk: seq<int>, f0: seq<int>, ss: int)
    requires |rk| == |b| && Radixed(b, f0) && 0 <= ss < 256
  {
    && |b| > 1 && Ranks(b, |b|, rk)
    && (forall x | 0 <= x < |b| :: 0 <= rk[x] <= |b|)
    && forall p, q | 0 <= p < q < |b| && Key2(b, f0[p]) == Key2(b, f0[q]) && b[f0[p]] == ss
        && b[Succ(f0[p], |b|)] != ss ::
         rk[f0[p]] <= rk[f0[q]]
  }

  /** The left base: buckets [ss, j] for j < ss, in order. */
  ghost function LeftBase(b: seq<Byte>, f0: seq<int>, ss: int): seq<int>
    requires |f0| == |b| && 0 <= ss < 256
  {
    StartsBounded(b, ss * 256);
    StartsBounded(b, ss * 256 + ss);
    StartsGrow(b, ss * 256, ss * 256 + ss);
    f0[S(b, ss * 256)..S(b, ss * 256 + ss)]
  }

  /** The right base: buckets [ss, j] for j > ss, from the end. */
  ghost function RightBase(b: seq<Byte>, f0: seq<int>, ss: int): seq<int>
    requires |f0| == |b| && 0 <= ss < 256
  {
    StartsBounded(b, ss * 256 + 256);
    StartsGrow(b, ss * 256 + ss + 1, ss * 256 + 256);
    Reverse(f0[S(b, ss * 256 + ss + 1)..S(b, ss * 256 + 256)])
  }

  ghost function Reverse(s: seq<int>): (r: seq<int>)
    ensures |r| == |s| && forall i | 0 <= i < |s| :: r[i] == s[|s| - 1 - i]
  {
    seq(|s|, i requires 0 <= i < |s| => s[|s| - 1 - i])
  }

  lemma InOrder(b: seq<Byte>, rk: seq<int>, f0: seq<int>, ss: int, p: int, q: int)
    requires |rk| == |b| && Radixed(b, f0) && 0 <= ss < 256 && BigSorted(b, rk, f0, ss)
    requires 0 <= p < q < |b| && b[f0[p]] == ss && b[Succ(f0[p], |b|)] != ss
    ensures rk[f0[p]] <= rk[f0[q]]
  {
    hide Ranks, S;
    RadixedIsBucketed(b, f0);
    BucketedSorted(Keys(b), f0, p, q);
    if Key2(b, f0[p]) < Key2(b, f0[q]) {
      KeyOrder(b, rk, f0[p], f0[q]);
    }
  }

  lemma SecondByteDecides(b: seq<Byte>, rk: seq<int>, x: int)
    requires |b| > 0 && Ranks(b, |b|, rk) && 0 <= x < |b|
    ensures b[Succ(x, |b|)] < b[x] ==> rk[Succ(x, |b|)] < rk[x]
    ensures b[Succ(x, |b|)] > b[x] ==> rk[Succ(x, |b|)] > rk[x]
  {
    if rk[x] <= rk[Succ(x, |b|)] { FirstByteOrder(b, rk, x, Succ(x, |b|)); }
    if rk[Succ(x, |b|)] <= rk[x] { FirstByteOrder(b, rk, Succ(x, |b|), x); }
  }

  lemma LeftBaseAt(b: seq<Byte>, rk: seq<int>, f0: seq<int>, ss: int, p: int)
    requires |rk| == |b| && Radixed(b, f0) && 0 <= ss < 256 && BigSorted(b, rk, f0, ss)
    requires 0 <= p < |b| && S(b, ss * 256) <= p < S(b, ss * 256 + ss)
    ensures Follows(b, rk, ss, f0[p]) && b[Succ(f0[p], |b|)] < ss
  {
    hide Ranks, S;
    RangeHolds(b, f0, ss * 256, ss * 256 + ss, p);
    SecondByteDecides(b, rk, f0[p]);
  }

  lemma LeftBaseHas(b: seq<Byte>, rk: seq<int>, f0: seq<int>, ss: int, x: int)
    requires |rk| == |b| && Radixed(b, f0) && 0 <= ss < 256 && BigSorted(b, rk, f0, ss)
    requires Follows(b, rk, ss, x) && b[Succ(x, |b|)] != ss
    ensures x in LeftBase(b, f0, ss)
  {
    hide Ranks, S;
    StartsBounded(b, ss * 256);
    StartsBounded(b, ss * 256 + ss);
    StartsGrow(b, ss * 256, ss * 256 + ss);
    SecondByteDecides(b, rk, x);
    var p := PermutationIndex(f0, |b|, x);
    RangeHolds(b, f0, ss * 256, ss * 256 + ss, p);
    assert LeftBase(b, f0, ss)[p - S(b, ss * 256)] == x;
  }

  lemma LeftBaseIs(b: seq<Byte>, f0: seq<int>, ss: int, i: int)
    requires |f0| == |b| && 0 <= ss < 256 && 0 <= i < |LeftBase(b, f0, ss)|
    ensures var p := S(b, ss * 256) + i;
            S(b, ss * 256) <= p < S(b, ss * 256 + ss) <= |b| && LeftBase(b, f0, ss)[i] == f0[p]
  {
    hide S;
    StartsBounded(b, ss * 256 + ss);
    StartsGrow(b, ss * 256, ss * 256 + ss);
  }

  lemma LeftBaseListed(b: seq<Byte>, rk: seq<int>, f0: seq<int>, ss: int)
    requires |rk| == |b| && Radixed(b, f0) && 0 <= ss < 256 && BigSorted(b, rk, f0, ss)
    ensures var base := LeftBase(b, f0, ss);
            InRange(base, |b|) && NoDuplicates(base) && AscendingBy(rk, base) && BaseFollows(b, rk, ss, base)
  {
    hide S, Radixed, BigSorted, LeftBase, Follows;
    BigFacts(b, rk, f0, ss);
    var a, base := S(b, ss * 256), LeftBase(b, f0, ss);
    forall i | 0 <= i < |base|
      ensures 0 <= base[i] < |b| && Follows(b, rk, ss, base[i]) && b[Succ(base[i], |b|)] != ss
    {
      LeftBaseIs(b, f0, ss, i);
      LeftBaseAt(b, rk, f0, ss, a + i);
    }
    forall i, j | 0 <= i < j < |base| ensures rk[base[i]] <= rk[base[j]] && base[i] != base[j] {
      LeftBaseIs(b, f0, ss, i);
      LeftBaseIs(b, f0, ss, j);
      LeftBaseAt(b, rk, f0, ss, a + i);
      FollowsBasics(b, rk, ss, f0[a + i]);
      InOrder(b, rk, f0, ss, a + i, a + j);
    }
  }

  lemma FollowsBasics(b: seq<Byte>, ky: seq<int>, ss: int, x: int)
    requires |b| > 0 && |ky| == |b| && Follows(b, ky, ss, x)
    ensures 0 <= x < |b| && b[x] == ss && 0 <= Succ(x, |b|) < |b|
  {
  }

  lemma LeftBaseOk(b: seq<Byte>, rk: seq<int>, f0: seq<int>, ss: int)
    requires |rk| == |b| && Radixed(b, f0) && 0 <= ss < 256 && BigSorted(b, rk, f0, ss)
    ensures BaseOk(b, rk, ss, LeftBase(b, f0, ss))
  {
    hide S, Orders, Radixed, BigSorted, LeftBase, Ranks, Follows, NoDuplicates, AscendingBy;
    BigFacts(b, rk, f0, ss);
    RanksOrder(b, rk);
    LeftBaseListed(b, rk, f0, ss);
    var base := LeftBase(b, f0, ss);
    forall x | 0 <= x < |b| && Follows(b, rk, ss, x) && b[Succ(x, |b|)] != ss ensures x in base {
      LeftBaseHas(b, rk, f0, ss, x);
    }
    forall i, x | 0 <= i < |base| && 0 <= x < |b| && b[x] == ss && b[Succ(x, |b|)] == ss ensures rk[base[i]] <= rk[x] {
      LeftBaseIs(b, f0, ss, i);
      LeftBaseAt(b, rk, f0, ss, S(b, ss * 256) + i);
      FollowsBasics(b, rk, ss, base[i]);
      KeyOrder(b, rk, base[i], x);
    }
  }

  lemma BigFacts(b: seq<Byte>, rk: seq<int>, f0: seq<int>, ss: int)
    requires |rk| == |b| && Radixed(b, f0) && 0 <= ss < 256 && BigSorted(b, rk, f0, ss)
    ensures |b| > 1 && Ranks(b, |b|, rk) && |f0| == |b| && NoDuplicates(f0)
    ensures forall x | 0 <= x < |b| :: 0 <= f0[x] < |b| && 0 <= rk[x] <= |b|
  {
  }

  lemma RightBaseAt(b: seq<Byte>, rk: seq<int>, f0: seq<int>, ss: int, p: int)
    requires |rk| == |b| && Radixed(b, f0) && 0 <= ss < 256 && BigSorted(b, rk, f0, ss)
    requires 0 <= p < |b| && S(b, ss * 256 + ss + 1) <= p < S(b, ss * 256 + 256)
    ensures Follows(b, Negated(rk), ss, f0[p]) && b[Succ(f0[p], |b|)] > ss
  {
    hide Ranks, S;
    RangeHolds(b, f0, ss * 256 + ss + 1, ss * 256 + 256, p);
    SecondByteDecides(b, rk, f0[p]);
  }

  lemma RightBaseHas(b: seq<Byte>, rk: seq<int>, f0: seq<int>, ss: int, x: int)
    requires |rk| == |b| && Radixed(b, f0) && 0 <= ss < 256 && BigSorted(b, rk, f0, ss)
    requires Follows(b, Negated(rk), ss, x) && b[Succ(x, |b|)] != ss
    ensures x in RightBase(b, f0, ss)
  {
    hide Ranks, S;
    StartsBounded(b, ss * 256 + 256);
    StartsGrow(b, ss * 256 + ss + 1, ss * 256 + 256);
    SecondByteDecides(b, rk, x);
    var p := PermutationIndex(f0, |b|, x);
    RangeHolds(b, f0, ss * 256 + ss + 1, ss * 256 + 256, p);
    assert RightBase(b, f0, ss)[S(b, ss * 256 + 256) - 1 - p] == x;
  }

  lemma RightBaseIs(b: seq<Byte>, f0: seq<int>, ss: int, i: int)
    requires |f0| == |b| && 0 <= ss < 256 && 0 <= i < |RightBase(b, f0, ss)|
    ensures var p := S(b, ss * 256 + 256) - 1 - i;
            S(b, ss * 256 + ss + 1) <= p < S(b, ss * 256 + 256) <= |b| && RightBase(b, f0, ss)[i] == f0[p]
  {
    hide S;
    StartsBounded(b, ss * 256 + 256);
    StartsGrow(b, ss * 256 + ss + 1, ss * 256 + 256);
  }

  lemma RightBaseListed(b: seq<Byte>, rk: seq<int>, f0: seq<int>, ss: int)
    requires |rk| == |b| && Radixed(b, f0) && 0 <= ss < 256 && BigSorted(b, rk, f0, ss)
    ensures var base := RightBase(b, f0, ss);
            InRange(base, |b|) && NoDuplicates(base) && AscendingBy(Negated(rk), base)
            && BaseFollows(b, Negated(rk), ss, base)
  {
    hide S, Radixed, BigSorted, RightBase, Follows;
    BigFacts(b, rk, f0, ss);
    var ky := Negated(rk);
    var e, base := S(b, ss * 256 + 256), RightBase(b, f0, ss);
    forall i | 0 <= i < |base|
      ensures 0 <= base[i] < |b| && Follows(b, ky, ss, base[i]) && b[Succ(base[i], |b|)] != ss
    {
      RightBaseIs(b, f0, ss, i);
      RightBaseAt(b, rk, f0, ss, e - 1 - i);
    }
    forall i, j | 0 <= i < j < |base| ensures ky[base[i]] <= ky[base[j]] && base[i] != base[j] {
      RightBaseIs(b, f0, ss, i);
      RightBaseIs(b, f0, ss, j);
      RightBaseAt(b, rk, f0, ss, e - 1 - j);
      FollowsBasics(b, ky, ss, f0[e - 1 - j]);
      InOrder(b, rk, f0, ss, e - 1 - j, e - 1 - i);
    }
  }

  lemma RightBaseOk(b: seq<Byte>, rk: seq<int>, f0: seq<int>, ss: int)
    requires |rk| == |b| && Radixed(b, f0) && 0 <= ss < 256 && BigSorted(b, rk, f0, ss)
    ensures BaseOk(b, Negated(rk), ss, RightBase(b, f0, ss))
  {
    hide S, Orders, Radixed, BigSorted, RightBase, Ranks, Follows, NoDuplicates, AscendingBy;
    BigFacts(b, rk, f0, ss);
    RanksOrder(b, rk);
    RightBaseListed(b, rk, f0, ss);
    var ky := Negated(rk);
    var e, base := S(b, ss * 256 + 256), RightBase(b, f0, ss);
    forall x | 0 <= x < |b| && Follows(b, ky, ss, x) && b[Succ(x, |b|)] != ss ensures x in base {
      RightBaseHas(b, rk, f0, ss, x);
    }
    forall i, x | 0 <= i < |base| && 0 <= x < |b| && b[x] == ss && b[Succ(x, |b|)] == ss ensures ky[base[i]] <= ky[x] {
      RightBaseIs(b, f0, ss, i);
      RightBaseAt(b, rk, f0, ss, e - 1 - i);
      FollowsBasics(b, ky, ss, base[i]);
      KeyOrder(b, rk, x, base[i]);
    }
  }

  // ---- the outcome ----

  /** Both scans are complete: between them they have seen exactly the rotations that start with ss,
      each once, the left one those that follow their successor. */
  ghost predicate Scanned(b: seq<Byte>, rk: seq<int>, ss: int, sl: seq<int>, sr: seq<int>)
    requires |b| > 0 && |rk| == |b|
  {
    && InRange(sl, |b|) && InRange(sr, |b|) && NoDuplicates(sl) && NoDuplicates(sr)
    && AscendingBy(rk, sl) && AscendingBy(Negated(rk), sr)
    && (forall x :: x in sl <==> Follows(b, rk, ss, x))
    && (forall x :: x in sr <==> Follows(b, Negated(rk), ss, x))
  }

  lemma SeenBoth(b: seq<Byte>, rk: seq<int>, ss: int, sl: seq<int>, sr: seq<int>)
    requires |b| > 0 && |rk| == |b|
    requires InRange(sl, |b|) && InRange(sr, |b|) && NoDuplicates(sl) && NoDuplicates(sr)
    requires forall i | 0 <= i < |sl| :: Follows(b, rk, ss, sl[i])
    requires forall i | 0 <= i < |sr| :: Follows(b, Negated(rk), ss, sr[i])
    ensures Seen(b, ss, sl + sr)
  {
    var s := sl + sr;
    forall i, j | 0 <= i < j < |s| ensures s[i] != s[j] {
      if i < |sl| <= j {
        assert Follows(b, rk, ss, s[i]) && Follows(b, Negated(rk), ss, sr[j - |sl|]);
      }
    }
    forall i | 0 <= i < |s| ensures 0 <= s[i] < |b| && b[s[i]] == ss {
      if i < |sl| { assert Follows(b, rk, ss, sl[i]); } else { assert Follows(b, Negated(rk), ss, sr[i - |sl|]); }
    }
  }

  /** In a block of more than one byte value, every bucket [t, ss] is exactly filled. */
  lemma ExactlyFilled(b: seq<Byte>, rk: seq<int>, f0: seq<int>, done: seq<bool>, ss: int, sl: seq<int>, sr: seq<int>,
                      t: int)
    requires Setting(b, f0, done, ss) && |rk| == |b| && Scanned(b, rk, ss, sl, sr) && 0 <= t < 256
    requires forall x | 0 <= x < |b| && b[x] == ss :: rk[Succ(x, |b|)] != rk[x]
    ensures |Preds(b, sl, t)| + |Preds(b, sr, t)| == S(b, t * 256 + ss + 1) - S(b, t * 256 + ss)
  {
    hide S, Radixed, Preds, Scanned, Seen, NoDuplicates;
    ScannedRange(b, rk, ss, sl, sr);
    var sb, u, v := t * 256 + ss, Preds(b, sl, t), Preds(b, sr, t);
    ScannedSeen(b, rk, ss, sl, sr);
    Room(b, f0, done, ss, sl + sr, t);
    PredsConcat(b, sl, sr, t);
    BucketListing(b, f0, sb);
    var w := f0[S(b, sb)..S(b, sb + 1)];
    forall k | k in w ensures k in Elements(u + v) {
      SeenByOne(b, rk, ss, sl, sr, k);
    }
    Pigeonhole(w, Elements(u + v));
    ElementsSize(u + v);
  }

  lemma SeenByOne(b: seq<Byte>, rk: seq<int>, ss: int, sl: seq<int>, sr: seq<int>, k: int)
    requires |b| > 1 && |rk| == |b| && Scanned(b, rk, ss, sl, sr)
    requires 0 <= k < |b| && b[Succ(k, |b|)] == ss
    requires forall x | 0 <= x < |b| && b[x] == ss :: rk[Succ(x, |b|)] != rk[x]
    ensures k in Elements(Preds(b, sl, b[k]) + Preds(b, sr, b[k]))
  {
    SuccPred(k, |b|);
    var x := Succ(k, |b|);
    assert Follows(b, rk, ss, x) || Follows(b, Negated(rk), ss, x);
    PredsMember(b, sl, b[k], k);
    PredsMember(b, sr, b[k], k);
  }

  lemma {:induction false} ElementsSize(s: seq<int>)
    ensures |Elements(s)| <= |s|
    decreases |s|
  {
    if s != [] {
      var front := s[..|s| - 1];
      ElementsSize(front);
      assert Elements(s) == Elements(front) + {s[|s| - 1]};
    }
  }

  lemma ScannedSeen(b: seq<Byte>, rk: seq<int>, ss: int, sl: seq<int>, sr: seq<int>)
    requires |b| > 0 && |rk| == |b| && Scanned(b, rk, ss, sl, sr)
    ensures Seen(b, ss, sl + sr)
  {
    assert forall i | 0 <= i < |sl| :: sl[i] in sl;
    assert forall i | 0 <= i < |sr| :: sr[i] in sr;
    SeenBoth(b, rk, ss, sl, sr);
  }

  /** A filled bucket, left part then reversed right part, is in rotation order without repeats. */
  lemma FilledSorted(b: seq<Byte>, rk: seq<int>, ss: int, sl: seq<int>, sr: seq<int>, t: int)
    requires |b| > 1 && |rk| == |b| && Ranks(b, |b|, rk) && forall x | 0 <= x < |b| :: 0 <= rk[x]
    requires Scanned(b, rk, ss, sl, sr)
    ensures var w := Preds(b, sl, t) + Reverse(Preds(b, sr, t));
            && InRange(w, |b|) && NoDuplicates(w) && AscendingBy(rk, w)
            && forall i | 0 <= i < |w| :: Key2(b, w[i]) == t * 256 + ss
  {
    hide Ranks, Orders, Preds, Scanned, Key2, NoDuplicates, AscendingBy;
    ScannedLists(b, rk, ss, sl, sr);
    var u, v := Preds(b, sl, t), Preds(b, sr, t);
    var w := u + Reverse(v);
    RanksOrder(b, rk);
    PredsDistinct(b, sl, t);
    PredsDistinct(b, sr, t);
    PredsAscending(b, rk, sl, t);
    PredsAscending(b, Negated(rk), sr, t);
    forall k | k in u || k in v ensures 0 <= k < |b| && Key2(b, k) == t * 256 + ss {
      PredsScanned(b, rk, ss, sl, sr, t, k);
    }
    forall k, k' | k in u && k' in v ensures 0 <= k < |b| && 0 <= k' < |b| && rk[k] < rk[k'] {
      LeftBelowRight(b, rk, ss, sl, sr, t, k, k');
    }
    JoinSorted(rk, u, v);
    forall i | 0 <= i < |w| ensures w[i] in u || w[i] in v {
      if i >= |u| { assert w[i] == v[|v| - 1 - (i - |u|)]; }
    }
  }

  lemma ScannedLists(b: seq<Byte>, rk: seq<int>, ss: int, sl: seq<int>, sr: seq<int>)
    requires |b| > 0 && |rk| == |b| && Scanned(b, rk, ss, sl, sr)
    ensures InRange(sl, |b|) && InRange(sr, |b|) && NoDuplicates(sl) && NoDuplicates(sr)
    ensures AscendingBy(rk, sl) && AscendingBy(Negated(rk), sr)
  {
  }

  lemma PredsScanned(b: seq<Byte>, rk: seq<int>, ss: int, sl: seq<int>, sr: seq<int>, t: int, k: int)
    requires |b| > 0 && |rk| == |b| && Scanned(b, rk, ss, sl, sr) && InRange(sl, |b|) && InRange(sr, |b|)
    requires k in Preds(b, sl, t) || k in Preds(b, sr, t)
    ensures 0 <= k < |b| && Key2(b, k) == t * 256 + ss
  {
    hide Preds;
    PredsMember(b, sl, t, k);
    PredsMember(b, sr, t, k);
    assert Follows(b, rk, ss, Succ(k, |b|)) || Follows(b, Negated(rk), ss, Succ(k, |b|));
  }

  /** An ascending list followed by the reverse of a descending one that lies above it. */
  lemma JoinSorted(rk: seq<int>, u: seq<int>, v: seq<int>)
    requires InRange(u, |rk|) && InRange(v, |rk|) && NoDuplicates(u) && NoDuplicates(v)
    requires AscendingBy(rk, u) && AscendingBy(Negated(rk), v)
    requires forall k, k' | k in u && k' in v :: 0 <= k < |rk| && 0 <= k' < |rk| && rk[k] < rk[k']
    ensures var w := u + Reverse(v);
            InRange(w, |rk|) && NoDuplicates(w) && AscendingBy(rk, w)
  {
    var w := u + Reverse(v);
    forall i | 0 <= i < |w| ensures 0 <= w[i] < |rk| {
      if i >= |u| { assert w[i] == v[|v| - 1 - (i - |u|)]; }
    }
    forall i, j | 0 <= i < j < |w| ensures w[i] != w[j] && rk[w[i]] <= rk[w[j]] {
      if |u| <= j { assert w[j] == v[|v| - 1 - (j - |u|)]; }
      if i < |u| <= j {
        assert w[i] in u && w[j] in v;
      } else if |u| <= i {
        assert w[i] == v[|v| - 1 - (i - |u|)];
      }
    }
  }

  lemma LeftBelowRight(b: seq<Byte>, rk: seq<int>, ss: int, sl: seq<int>, sr: seq<int>, t: int, k: int, k': int)
    requires |b| > 1 && |rk| == |b| && Ranks(b, |b|, rk) && forall x | 0 <= x < |b| :: 0 <= rk[x]
    requires Scanned(b, rk, ss, sl, sr)
    requires k in Preds(b, sl, t) && k' in Preds(b, sr, t)
    ensures 0 <= k < |b| && 0 <= k' < |b| && rk[k] < rk[k']
  {
    hide Ranks;
    RanksOrder(b, rk);
    PredsMember(b, sl, t, k);
    PredsMember(b, sr, t, k');
    LowBeforeHigh(b, rk, ss, Succ(k, |b|), Succ(k', |b|));
    assert b[k] == b[k'];
  }

  /** After step 2: the array is still radixed, only undone buckets [t, ss] have changed, and each of
      them is in rotation order. */
  lemma CopyOutcome(b: seq<Byte>, rk: seq<int>, f0: seq<int>, done: seq<bool>, ss: int, sl: seq<int>, sr: seq<int>)
    requires Setting(b, f0, done, ss) && |rk| == |b| && Ranks(b, |b|, rk)
    requires forall x | 0 <= x < |b| :: 0 <= rk[x]
    requires Scanned(b, rk, ss, sl, sr)
    ensures var f1 := Expected(b, f0, done, ss, sl, sr);
            && Radixed(b, f1)
            && (forall p | 0 <= p < |b| :: Key2(b, f1[p]) == Key2(b, f0[p]))
            && (forall p | 0 <= p < |b| && (b[Succ(f0[p], |b|)] != ss || done[b[f0[p]]]) :: f1[p] == f0[p])
            && (forall p, q | 0 <= p < q < |b| && Key2(b, f0[p]) == Key2(b, f0[q]) && b[Succ(f0[p], |b|)] == ss
                && !done[b[f0[p]]] ::
                  rk[f1[p]] <= rk[f1[q]])
  {
    hide S, Ranks, Radixed, Scanned, Expect;
    if exists x | 0 <= x < |b| && b[x] == ss :: rk[Succ(x, |b|)] == rk[x] {
      var x :| 0 <= x < |b| && b[x] == ss && rk[Succ(x, |b|)] == rk[x];
      FlatMeansConstant(b, rk, x);
      NothingToScan(b, rk, ss, sl, sr);
      NothingSeen(b, f0, done, ss);
      RadixedSize(b, f0);
    } else {
      FilledOutcome(b, rk, f0, done, ss, sl, sr);
    }
  }

  lemma NothingToScan(b: seq<Byte>, rk: seq<int>, ss: int, sl: seq<int>, sr: seq<int>)
    requires |b| > 0 && |rk| == |b| && Scanned(b, rk, ss, sl, sr)
    requires forall i, j | 0 <= i < |b| && 0 <= j < |b| :: rk[i] == rk[j]
    ensures sl == [] && sr == []
  {
    var x := SomeMember(sl);
    var y := SomeMember(sr);
  }

  lemma SomeMember(s: seq<int>) returns (x: int)
    ensures s == [] || x in s
  {
    x := 0;
    if s != [] {
      x := s[0];
    }
  }

  /** Entry p of a filled bucket. */
  lemma FilledAt(b: seq<Byte>, rk: seq<int>, f0: seq<int>, done: seq<bool>, ss: int, sl: seq<int>, sr: seq<int>, p: int)
    requires Setting(b, f0, done, ss) && |rk| == |b| && Scanned(b, rk, ss, sl, sr)
    requires forall x | 0 <= x < |b| && b[x] == ss :: rk[Succ(x, |b|)] != rk[x]
    requires 0 <= p < |b| && b[Succ(f0[p], |b|)] == ss && !done[b[f0[p]]]
    ensures var t := b[f0[p]];
            var w := Preds(b, sl, t) + Reverse(Preds(b, sr, t));
            && 0 <= p - S(b, t * 256 + ss) < |w|
            && Expect(b, f0, done, ss, sl, sr, p) == w[p - S(b, t * 256 + ss)]
  {
    hide S, Preds, Scanned;
    var t := b[f0[p]];
    ScannedRange(b, rk, ss, sl, sr);
    ExactlyFilled(b, rk, f0, done, ss, sl, sr, t);
    BucketHolds(b, f0, t * 256 + ss, p);
  }

  lemma ScannedRange(b: seq<Byte>, rk: seq<int>, ss: int, sl: seq<int>, sr: seq<int>)
    requires |b| > 0 && |rk| == |b| && Scanned(b, rk, ss, sl, sr)
    ensures InRange(sl, |b|) && InRange(sr, |b|)
  {
  }

  lemma FilledOutcome(b: seq<Byte>, rk: seq<int>, f0: seq<int>, done: seq<bool>, ss: int, sl: seq<int>, sr: seq<int>)
    requires Setting(b, f0, done, ss) && |rk| == |b| && Ranks(b, |b|, rk)
    requires forall x | 0 <= x < |b| :: 0 <= rk[x]
    requires Scanned(b, rk, ss, sl, sr)
    requires forall x | 0 <= x < |b| && b[x] == ss :: rk[Succ(x, |b|)] != rk[x]
    ensures InRange(sl, |b|) && InRange(sr, |b|)
    ensures var f1 := Expected(b, f0, done, ss, sl, sr);
            && Radixed(b, f1)
            && (forall p | 0 <= p < |b| :: Key2(b, f1[p]) == Key2(b, f0[p]))
            && (forall p | 0 <= p < |b| && (b[Succ(f0[p], |b|)] != ss || done[b[f0[p]]]) :: f1[p] == f0[p])
            && (forall p, q | 0 <= p < q < |b| && Key2(b, f0[p]) == Key2(b, f0[q]) && b[Succ(f0[p], |b|)] == ss
                && !done[b[f0[p]]] ::
                  rk[f1[p]] <= rk[f1[q]])
  {
    hide S, Ranks, Scanned, Preds, Expect;
    ScannedRange(b, rk, ss, sl, sr);
    var f1 := Expected(b, f0, done, ss, sl, sr);
    forall p | 0 <= p < |b|
      ensures 0 <= f1[p] < |b| && Key2(b, f1[p]) == Key2(b, f0[p])
      ensures b[Succ(f0[p], |b|)] != ss || done[b[f0[p]]] ==> f1[p] == f0[p]
    {
      OutcomeAt(b, rk, f0, done, ss, sl, sr, p);
    }
    forall p, q | 0 <= p < q < |b| && Key2(b, f0[p]) == Key2(b, f0[q])
      ensures f1[p] != f1[q]
      ensures b[Succ(f0[p], |b|)] == ss && !done[b[f0[p]]] ==> rk[f1[p]] <= rk[f1[q]]
    {
      OutcomePair(b, rk, f0, done, ss, sl, sr, p, q);
    }
    assert NoDuplicates(f1) by {
      forall p, q | 0 <= p < q < |b| ensures f1[p] != f1[q] {
        if Key2(b, f0[p]) != Key2(b, f0[q]) {
          assert Key2(b, f1[p]) != Key2(b, f1[q]);
        }
      }
    }
  }

  lemma OutcomeAt(b: seq<Byte>, rk: seq<int>, f0: seq<int>, done: seq<bool>, ss: int, sl: seq<int>, sr: seq<int>,
                  p: int)
    requires Setting(b, f0, done, ss) && |rk| == |b| && Ranks(b, |b|, rk)
    requires forall x | 0 <= x < |b| :: 0 <= rk[x]
    requires Scanned(b, rk, ss, sl, sr) && InRange(sl, |b|) && InRange(sr, |b|)
    requires forall x | 0 <= x < |b| && b[x] == ss :: rk[Succ(x, |b|)] != rk[x]
    requires 0 <= p < |b|
    ensures var v := Expect(b, f0, done, ss, sl, sr, p);
            && 0 <= v < |b| && Key2(b, v) == Key2(b, f0[p])
            && (b[Succ(f0[p], |b|)] != ss || done[b[f0[p]]] ==> v == f0[p])
  {
    hide S, Ranks, Scanned, Preds;
    if b[Succ(f0[p], |b|)] == ss && !done[b[f0[p]]] {
      FilledAt(b, rk, f0, done, ss, sl, sr, p);
      FilledSorted(b, rk, ss, sl, sr, b[f0[p]]);
    }
  }

  lemma OutcomePair(b: seq<Byte>, rk: seq<int>, f0: seq<int>, done: seq<bool>, ss: int, sl: seq<int>, sr: seq<int>,
                    p: int, q: int)
    requires Setting(b, f0, done, ss) && |rk| == |b| && Ranks(b, |b|, rk)
    requires forall x | 0 <= x < |b| :: 0 <= rk[x]
    requires Scanned(b, rk, ss, sl, sr) && InRange(sl, |b|) && InRange(sr, |b|)
    requires forall x | 0 <= x < |b| && b[x] == ss :: rk[Succ(x, |b|)] != rk[x]
    requires 0 <= p < q < |b| && Key2(b, f0[p]) == Key2(b, f0[q])
    ensures var v, w := Expect(b, f0, done, ss, sl, sr, p), Expect(b, f0, done, ss, sl, sr, q);
            && v != w
            && (b[Succ(f0[p], |b|)] == ss && !done[b[f0[p]]] ==> 0 <= v < |b| && 0 <= w < |b| && rk[v] <= rk[w])
  {
    hide S, Ranks, Scanned, Preds;
    assert b[f0[p]] == b[f0[q]] && b[Succ(f0[p], |b|)] == b[Succ(f0[q], |b|)];
    if b[Succ(f0[p], |b|)] == ss && !done[b[f0[p]]] {
      FilledAt(b, rk, f0, done, ss, sl, sr, p);
      FilledAt(b, rk, f0, done, ss, sl, sr, q);
      FilledSorted(b, rk, ss, sl, sr, b[f0[p]]);
    }
  }
}
