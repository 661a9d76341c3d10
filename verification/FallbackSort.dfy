/** fallbackSort: the block sorter by prefix doubling. */
module FallbackSort {
  import opened Permutations
  import opened Rotations
  import opened Buckets
  import opened HeaderBits
  import opened PartitionStack
  import opened FallbackQuickSort

  // ---- what holds between two passes ----

  /** At depth h: f lists all rotations in the order of their first h bytes, and the header bits mark
      exactly the positions where those h bytes change; the sentinels end the table. */
  ghost predicate Refined(b: seq<Byte>, f: seq<int>, t: seq<bv32>, h: nat)
    requires |b| > 0
  {
    && IsPermutation(f, |b|)
    && |b| + 1 < 32 * |t|
    && (forall i, j | 0 <= i < j < |b| :: Cmp(b, f[i], f[j], h) <= 0)
    && IsSet(t, 0) && IsSet(t, |b|) && !IsSet(t, |b| + 1)
    && (forall i | 0 < i < |b| :: IsSet(t, i) <==> Cmp(b, f[i - 1], f[i], h) != 0)
  }

  /** The position of the bucket header at or before i. */
  ghost function Head(t: seq<bv32>, i: int): int
    requires 0 <= i < 32 * |t|
    decreases i
  {
    if i == 0 || IsSet(t, i) then i else Head(t, i - 1)
  }

  lemma {:induction false} HeadBelow(t: seq<bv32>, i: int)
    requires 0 <= i < 32 * |t|
    ensures 0 <= Head(t, i) <= i
    ensures forall k | Head(t, i) < k <= i :: !IsSet(t, k)
    decreases i
  {
    if i > 0 && !IsSet(t, i) { HeadBelow(t, i - 1); }
  }

  /** Headers rank the positions as the first h bytes rank the rotations. */
  lemma {:induction false} HeadOrder(b: seq<Byte>, f: seq<int>, t: seq<bv32>, h: nat, i: int, j: int)
    requires |b| > 0 && Refined(b, f, t, h) && 0 <= i <= j < |b|
    ensures Head(t, i) <= Head(t, j)
    ensures Head(t, i) == Head(t, j) <==> Cmp(b, f[i], f[j], h) == 0
    decreases j - i
  {
    if i == j {
      CmpReflexive(b, f[i], h);
    } else {
      HeadOrder(b, f, t, h, i, j - 1);
      CmpTransitive(b, f[i], f[j - 1], f[j], h) by {
        if i == j - 1 { CmpReflexive(b, f[i], h); }
      }
      HeadBelow(t, i);
      if Cmp(b, f[i], f[j - 1], h) < 0 || Cmp(b, f[j - 1], f[j], h) < 0 {
        HeadBelow(t, j - 1);
      }
    }
  }

  // ---- numbering the classes ----

  /** x - h around the block (the code's k). */
  function Back(x: int, h: int, n: int): int {
    if x - h < 0 then x - h + n else x - h
  }

  lemma BackWraps(b: seq<Byte>, x: int, y: int, h: nat, m: nat)
    requires 0 <= x < |b| && 0 <= y < |b| && h <= |b|
    ensures 0 <= Back(x, h, |b|) < |b|
    ensures Cmp(b, Back(x, h, |b|) + h, Back(y, h, |b|) + h, m) == Cmp(b, x, y, m)
  {
    CmpWrap(b, Back(x, h, |b|) + h, Back(y, h, |b|) + h, m);
  }

  /** ec ranks every rotation by its bytes h..2h-1. */
  ghost predicate Classes(b: seq<Byte>, h: nat, ec: seq<int>)
    requires |b| > 0
  {
    && |ec| == |b|
    && (forall x | 0 <= x < |b| :: 0 <= ec[x] < |b|)
    && forall x, y | 0 <= x < |b| && 0 <= y < |b| :: ec[x] < ec[y] <==> Cmp(b, x + h, y + h, h) < 0
  }

  lemma ClassesEqual(b: seq<Byte>, h: nat, ec: seq<int>, x: int, y: int)
    requires |b| > 0 && Classes(b, h, ec) && 0 <= x < |b| && 0 <= y < |b|
    ensures ec[x] == ec[y] <==> Cmp(b, x + h, y + h, h) == 0
    ensures ec[x] <= ec[y] <==> Cmp(b, x + h, y + h, h) <= 0
  {
    CmpAntisymmetric(b, x + h, y + h, h);
  }

  /** The class numbers are header positions, so they rank as Classes says. */
  lemma HeadsAreClasses(b: seq<Byte>, f: seq<int>, t: seq<bv32>, h: nat, ec: seq<int>)
    requires 0 < h <= |b| && Refined(b, f, t, h)
    requires |ec| == |b|
    requires forall i | 0 <= i < |b| ::
               0 <= Back(f[i], h, |b|) < |b| && ec[Back(f[i], h, |b|)] == Head(t, i)
    ensures Classes(b, h, ec)
  {
    var n := |b|;
    forall x | 0 <= x < n ensures 0 <= ec[x] < n {
      var i := PermutationIndex(f, n, Wrap(x + h, n));
      assert Back(f[i], h, n) == x;
      HeadBelow(t, i);
    }
    forall x, y | 0 <= x < n && 0 <= y < n
      ensures ec[x] < ec[y] <==> Cmp(b, x + h, y + h, h) < 0
    {
      var i := PermutationIndex(f, n, Wrap(x + h, n));
      var j := PermutationIndex(f, n, Wrap(y + h, n));
      assert Back(f[i], h, n) == x && Back(f[j], h, n) == y;
      BackWraps(b, f[i], f[j], h, h);
      HeadsCompare(b, f, t, h, i, j);
    }
  }

  lemma HeadsCompare(b: seq<Byte>, f: seq<int>, t: seq<bv32>, h: nat, i: int, j: int)
    requires |b| > 0 && Refined(b, f, t, h) && 0 <= i < |b| && 0 <= j < |b|
    ensures Head(t, i) < Head(t, j) <==> Cmp(b, f[i], f[j], h) < 0
  {
    if i <= j {
      HeadOrder(b, f, t, h, i, j);
      if i == j { CmpReflexive(b, f[i], h); }
    } else {
      HeadOrder(b, f, t, h, j, i);
      CmpAntisymmetric(b, f[i], f[j], h);
    }
  }

  /** eclass and the bytes of the block share their storage: storing a class number destroys bytes
      4k..4k+3 of the block, so nothing is promised about it. */
  method StoreClass(eclass: array<int>, block: array<Byte>, k: int, v: int)
    requires 0 <= k < eclass.Length && 0 <= v
    modifies eclass, block
    ensures eclass[..] == old(eclass[..])[k := v]
  {
    eclass[k] := v;
    var rest, o := v, 4 * k;
    while o < 4 * k + 4 && o < block.Length
      invariant 4 * k <= o && 0 <= rest
      invariant eclass[..] == old(eclass[..])[k := v]
    {
      block[o] := rest % 256;
      rest, o := rest / 256, o + 1;
    }
  }

  /** The first loop of a pass: every rotation gets the header position of the rotation h further on. */
  method NumberClasses(ghost b: seq<Byte>, fmap: array<int>, eclass: array<int>, block: array<Byte>,
                       bhtab: array<bv32>, nblock: int, H: int)
    requires nblock == |b| == fmap.Length == eclass.Length && 0 < H <= nblock
    requires fmap != eclass && bhtab as object != eclass && bhtab as object != block && fmap as object != block
    requires Refined(b, fmap[..], bhtab[..], H)
    modifies eclass, block
    ensures Classes(b, H, eclass[..])
  {
    hide Refined, Head, IsSet, Classes, IsPermutation;
    ghost var f, t := fmap[..], bhtab[..];
    var i, j := 0, 0;
    RefinedBasics(b, f, t, H);
    while i < nblock
      invariant 0 <= i <= nblock
      invariant fmap[..] == f && bhtab[..] == t
      invariant i > 0 ==> 0 <= j && j == Head(t, i - 1)
      invariant forall m | 0 <= m < i ::
                  0 <= Back(f[m], H, nblock) < nblock && eclass[Back(f[m], H, nblock)] == Head(t, m)
    {
      HeadStep(t, i);
      if IsSet(bhtab[..], i) { j := i; }
      var k := fmap[i] - H;
      if k < 0 { k := k + nblock; }
      BackDiffers(b, f, H, i);
      StoreClass(eclass, block, k, j);
      i := i + 1;
    }
    HeadsAreClasses(b, f, t, H, eclass[..]);
  }

  lemma RefinedBasics(b: seq<Byte>, f: seq<int>, t: seq<bv32>, h: nat)
    requires |b| > 0 && Refined(b, f, t, h)
    ensures IsPermutation(f, |b|) && |f| == |b| && |b| + 1 < 32 * |t|
    ensures IsSet(t, 0) && IsSet(t, |b|) && !IsSet(t, |b| + 1)
    ensures forall i | 0 <= i < |b| :: 0 <= f[i] < |b|
  {
  }

  lemma HeadStep(t: seq<bv32>, i: int)
    requires 0 <= i < 32 * |t|
    ensures Head(t, i) == if i == 0 || IsSet(t, i) then i else Head(t, i - 1)
    ensures Head(t, i) >= 0
  {
    HeadBelow(t, i);
  }

  lemma BackDiffers(b: seq<Byte>, f: seq<int>, h: int, i: int)
    requires IsPermutation(f, |b|) && 0 <= i < |f| && 0 < h <= |b|
    ensures 0 <= Back(f[i], h, |b|) < |b|
    ensures forall m | 0 <= m < i :: Back(f[m], h, |b|) != Back(f[i], h, |b|)
  {
    forall m | 0 <= m < i ensures Back(f[m], h, |b|) != Back(f[i], h, |b|) {
      assert f[m] != f[i];
    }
  }

  // ---- one pass over the buckets ----

  /** In the middle of a pass that started from f0 and t0: positions up to r are refined to twice the
      depth, the rest is untouched, and every rotation is still in its bucket. */
  ghost predicate Passing(b: seq<Byte>, f0: seq<int>, t0: seq<bv32>, ec: seq<int>,
                          f: seq<int>, t: seq<bv32>, h: nat, r: int)
    requires |b| > 0
  {
    && Refined(b, f0, t0, h) && Classes(b, h, ec)
    && IsPermutation(f, |b|) && |t| == |t0|
    && -1 <= r < |b| && IsSet(t0, r + 1)
    && (forall i | 0 <= i < |b| :: Cmp(b, f0[i], f[i], h) == 0)
    && (forall i | r < i < |b| :: f[i] == f0[i])
    && (forall i, j | 0 <= i < j <= r && Cmp(b, f0[i], f0[j], h) == 0 :: ec[f[i]] <= ec[f[j]])
    && IsSet(t, 0)
    && (forall i | 0 < i <= r :: IsSet(t, i) <==> IsSet(t0, i) || ec[f[i - 1]] != ec[f[i]])
    && (forall i | r < i <= |b| + 1 :: IsSet(t, i) <==> IsSet(t0, i))
  }

  lemma PassStarts(b: seq<Byte>, f: seq<int>, t: seq<bv32>, ec: seq<int>, h: nat)
    requires |b| > 0 && Refined(b, f, t, h) && Classes(b, h, ec)
    ensures Passing(b, f, t, ec, f, t, h, -1)
  {
    forall i | 0 <= i < |b| ensures Cmp(b, f[i], f[i], h) == 0 {
      CmpReflexive(b, f[i], h);
    }
  }

  lemma PassBasics(b: seq<Byte>, f0: seq<int>, t0: seq<bv32>, ec: seq<int>,
                   f: seq<int>, t: seq<bv32>, h: nat, r: int)
    requires |b| > 0 && Passing(b, f0, t0, ec, f, t, h, r)
    ensures -1 <= r < |b| == |f| == |ec| && |b| + 1 < 32 * |t|
    ensures IsPermutation(f, |b|)
    ensures IsPermutation(f0, |b|)
    ensures IsSet(t, |b|) && !IsSet(t, |b| + 1) && (r + 1 < |b| ==> IsSet(t, r + 1))
    ensures Indexes(f, 0, |b|, 0, |ec|)
    ensures forall x | 0 <= x < |b| :: 0 <= ec[x]
  {
  }

  /** The bucket l..r1 found by the scan: r+1..l are headers, l+1..r1 are not, r1+1 is. */
  ghost predicate Found(t: seq<bv32>, r: int, l: int, r1: int) {
    && -1 <= r < l <= r1 && r1 + 1 < 32 * |t|
    && (forall i | r < i <= l :: IsSet(t, i))
    && (forall i | l < i <= r1 :: !IsSet(t, i))
    && IsSet(t, r1 + 1)
  }

  /** The header bits after the bucket l..r1 has been sorted by class and rescanned. */
  ghost predicate Marked(t: seq<bv32>, t1: seq<bv32>, ec: seq<int>, f1: seq<int>, l: int, i: int)
    requires Indexes(f1, l, i, 0, |ec|)
  {
    && |t1| == |t|
    && forall k {:trigger IsSet(t1, k)} {:trigger IsSet(t, k)} | 0 <= k < 32 * |t| ::
         IsSet(t1, k) <==> IsSet(t, k) || (l <= k < i && (k == l || ec[f1[k - 1]] != ec[f1[k]]))
  }

  lemma MarkedOutside(t: seq<bv32>, t1: seq<bv32>, ec: seq<int>, f1: seq<int>, l: int, i: int, k: int)
    requires Indexes(f1, l, i, 0, |ec|) && Marked(t, t1, ec, f1, l, i)
    requires 0 <= k < 32 * |t| && !(l <= k < i)
    ensures IsSet(t1, k) <==> IsSet(t, k)
  {
  }

  /** Distinct buckets at the old depth. */
  lemma HeadersSeparate(b: seq<Byte>, f0: seq<int>, t0: seq<bv32>, h: nat, i: int, k: int, j: int)
    requires |b| > 0 && Refined(b, f0, t0, h)
    requires 0 <= i < k <= j < |b| && IsSet(t0, k)
    ensures Cmp(b, f0[i], f0[j], h) < 0
  {
    HeadOrder(b, f0, t0, h, i, j);
    HeadOrder(b, f0, t0, h, k, j);
    HeadBelow(t0, i);
  }

  lemma SameBucket(b: seq<Byte>, f0: seq<int>, t0: seq<bv32>, h: nat, i: int, j: int)
    requires |b| > 0 && Refined(b, f0, t0, h)
    requires 0 <= i <= j < |b| && forall k | i < k <= j :: !IsSet(t0, k)
    ensures Cmp(b, f0[i], f0[j], h) == 0 && Cmp(b, f0[j], f0[i], h) == 0
  {
    HeadOrder(b, f0, t0, h, i, j);
    HeadBelow(t0, j);
    if i < j { HeadsStay(t0, i, j); }
    CmpAntisymmetric(b, f0[i], f0[j], h);
  }

  lemma {:induction false} HeadsStay(t: seq<bv32>, i: int, j: int)
    requires 0 <= i <= j < 32 * |t| && forall k | i < k <= j :: !IsSet(t, k)
    ensures Head(t, i) == Head(t, j)
    decreases j - i
  {
    if i < j { HeadsStay(t, i, j - 1); }
  }

  lemma PassBucket(b: seq<Byte>, f0: seq<int>, t0: seq<bv32>, ec: seq<int>,
                   f: seq<int>, t: seq<bv32>, f1: seq<int>, t1: seq<bv32>, h: nat, r: int, l: int, r1: int)
    requires |b| > 0 && Passing(b, f0, t0, ec, f, t, h, r)
    requires Found(t, r, l, r1) && r1 < |b|
    requires Rearranged(f, f1, l, r1 + 1)
    requires Indexes(f1, l, r1 + 1, 0, |ec|) && SortedBy(ec, f1, l, r1 + 1)
    requires Marked(t, t1, ec, f1, l, r1 + 1)
    ensures Passing(b, f0, t0, ec, f1, t1, h, r1)
  {
    hide Refined, Classes, Rearranged, IsSet, IsPermutation;
    PassPlaces(b, f0, t0, ec, f, t, f1, h, r, l, r1);
    PassSorted(b, f0, t0, ec, f, t, f1, h, r, l, r1);
    PassMarked(b, f0, t0, ec, f, t, f1, t1, h, r, l, r1);
  }

  lemma PassPlaces(b: seq<Byte>, f0: seq<int>, t0: seq<bv32>, ec: seq<int>,
                   f: seq<int>, t: seq<bv32>, f1: seq<int>, h: nat, r: int, l: int, r1: int)
    requires |b| > 0 && Passing(b, f0, t0, ec, f, t, h, r)
    requires Found(t, r, l, r1) && r1 < |b|
    requires Rearranged(f, f1, l, r1 + 1)
    ensures IsPermutation(f1, |b|) && |f1| == |b| && Indexes(f1, 0, |b|, 0, |ec|)
    ensures forall i | 0 <= i < |b| && !(l <= i <= r1) :: f1[i] == f[i]
    ensures forall i | 0 <= i < |b| :: Cmp(b, f0[i], f1[i], h) == 0
  {
    hide Passing, Found, Rearranged, Cmp;
    PassBasics(b, f0, t0, ec, f, t, h, r);
    FoundBounds(t, r, l, r1);
    RearrangedPermutation(f, f1, l, r1 + 1, |b|);
    forall i | 0 <= i < |b| && !(l <= i <= r1) ensures f1[i] == f[i] {
      RearrangedOutside(f, f1, l, r1 + 1, i);
    }
    forall i | 0 <= i < |b| ensures Cmp(b, f0[i], f1[i], h) == 0 {
      PlaceKept(b, f0, t0, ec, f, t, f1, h, r, l, r1, i);
    }
  }

  lemma FoundBounds(t: seq<bv32>, r: int, l: int, r1: int)
    requires Found(t, r, l, r1)
    ensures -1 <= r < l <= r1
  {
  }

  lemma PlaceKept(b: seq<Byte>, f0: seq<int>, t0: seq<bv32>, ec: seq<int>,
                  f: seq<int>, t: seq<bv32>, f1: seq<int>, h: nat, r: int, l: int, r1: int, i: int)
    requires |b| > 0 && Passing(b, f0, t0, ec, f, t, h, r)
    requires Found(t, r, l, r1) && r1 < |b|
    requires Rearranged(f, f1, l, r1 + 1) && IsPermutation(f1, |b|)
    requires 0 <= i < |b| && (!(l <= i <= r1) ==> f1[i] == f[i])
    ensures |f0| == |b| && 0 <= f0[i] < |b| && Cmp(b, f0[i], f1[i], h) == 0
  {
    hide Classes, IsSet, Rearranged;
    if l <= i <= r1 {
      var j := RearrangedMember(f, f1, l, r1 + 1, i);
      assert f1[i] == f0[j];
      FoundBucket(b, f0, t0, t, h, r, l, r1, i, j);
    }
  }

  lemma FoundBucket(b: seq<Byte>, f0: seq<int>, t0: seq<bv32>, t: seq<bv32>, h: nat, r: int, l: int, r1: int, i: int,
                    j: int)
    requires |b| > 0 && Refined(b, f0, t0, h) && |t| == |t0|
    requires Found(t, r, l, r1) && r1 < |b| && l <= i <= r1 && l <= j <= r1
    requires forall k | r < k <= |b| + 1 :: IsSet(t, k) <==> IsSet(t0, k)
    ensures Cmp(b, f0[i], f0[j], h) == 0
  {
    assert forall k | l < k <= r1 :: !IsSet(t0, k);
    if i <= j { SameBucket(b, f0, t0, h, i, j); } else { SameBucket(b, f0, t0, h, j, i); }
  }

  lemma PassSorted(b: seq<Byte>, f0: seq<int>, t0: seq<bv32>, ec: seq<int>,
                   f: seq<int>, t: seq<bv32>, f1: seq<int>, h: nat, r: int, l: int, r1: int)
    requires |b| > 0 && Passing(b, f0, t0, ec, f, t, h, r)
    requires Found(t, r, l, r1) && r1 < |b| == |f1|
    requires forall i | 0 <= i < |b| && !(l <= i <= r1) :: f1[i] == f[i]
    requires Indexes(f1, 0, |b|, 0, |ec|) && SortedBy(ec, f1, l, r1 + 1)
    ensures forall i, j | 0 <= i < j <= r1 && Cmp(b, f0[i], f0[j], h) == 0 :: ec[f1[i]] <= ec[f1[j]]
  {
    hide Refined, Classes, IsSet, IsPermutation;
    RefinedBasics(b, f0, t0, h);
    PassBasics(b, f0, t0, ec, f, t, h, r);
    forall i, j | 0 <= i < j <= r1 && Cmp(b, f0[i], f0[j], h) == 0 ensures ec[f1[i]] <= ec[f1[j]] {
      if r < j && i < l {
        var k := if j < l then j else l;
        assert IsSet(t, k);
        assert IsSet(t0, k);
        HeadersSeparate(b, f0, t0, h, i, k, j);
      }
    }
  }

  lemma PassMarked(b: seq<Byte>, f0: seq<int>, t0: seq<bv32>, ec: seq<int>,
                   f: seq<int>, t: seq<bv32>, f1: seq<int>, t1: seq<bv32>, h: nat, r: int, l: int, r1: int)
    requires |b| > 0 && Passing(b, f0, t0, ec, f, t, h, r)
    requires Found(t, r, l, r1) && r1 < |b| == |f1|
    requires forall i | 0 <= i < |b| && !(l <= i <= r1) :: f1[i] == f[i]
    requires Indexes(f1, 0, |b|, 0, |ec|)
    requires Marked(t, t1, ec, f1, l, r1 + 1)
    ensures |t1| == |t0| && IsSet(t0, r1 + 1) && IsSet(t1, 0)
    ensures forall i | 0 < i <= r1 :: IsSet(t1, i) <==> IsSet(t0, i) || ec[f1[i - 1]] != ec[f1[i]]
    ensures forall i | r1 < i <= |b| + 1 :: IsSet(t1, i) <==> IsSet(t0, i)
  {
    hide Refined, Classes, IsSet, IsPermutation;
    RefinedBasics(b, f0, t0, h);
    PassBasics(b, f0, t0, ec, f, t, h, r);
    forall i | r1 < i <= |b| + 1 ensures IsSet(t1, i) <==> IsSet(t0, i) {
      MarkedOutside(t, t1, ec, f1, l, r1 + 1, i);
    }
    assert IsSet(t1, 0) <==> IsSet(t, 0) || l == 0;
    forall i | 0 < i <= r1
      ensures IsSet(t1, i) <==> IsSet(t0, i) || ec[f1[i - 1]] != ec[f1[i]]
    {
      assert r < i ==> (IsSet(t, i) <==> IsSet(t0, i));
      assert i <= r ==> f1[i] == f[i] && f1[i - 1] == f[i - 1];
    }
  }

  /** A finished pass has doubled the depth. */
  lemma PassEnds(b: seq<Byte>, f0: seq<int>, t0: seq<bv32>, ec: seq<int>,
                 f: seq<int>, t: seq<bv32>, h: nat, r: int)
    requires |b| > 0 && Passing(b, f0, t0, ec, f, t, h, r)
    requires forall i | r < i < |b| :: IsSet(t, i)
    ensures Refined(b, f, t, 2 * h)
  {
    forall i, j | 0 <= i < j < |b| ensures Cmp(b, f[i], f[j], 2 * h) <= 0 {
      PairDoubles(b, f0, t0, ec, f, t, h, r, i, j);
    }
    forall i | 0 < i < |b| ensures IsSet(t, i) <==> Cmp(b, f[i - 1], f[i], 2 * h) != 0 {
      PairDoubles(b, f0, t0, ec, f, t, h, r, i - 1, i);
    }
  }

  lemma PairDoubles(b: seq<Byte>, f0: seq<int>, t0: seq<bv32>, ec: seq<int>,
                    f: seq<int>, t: seq<bv32>, h: nat, r: int, i: int, j: int)
    requires |b| > 0 && Passing(b, f0, t0, ec, f, t, h, r)
    requires forall k | r < k < |b| :: IsSet(t, k)
    requires 0 <= i < j < |b|
    ensures Cmp(b, f[i], f[j], 2 * h) <= 0
    ensures j == i + 1 ==> (IsSet(t, j) <==> Cmp(b, f[i], f[j], 2 * h) != 0)
  {
    CmpCongruent(b, f0[i], f[i], f0[j], f[j], h);
    CmpSplit(b, f[i], f[j], h, h);
    ClassesEqual(b, h, ec, f[i], f[j]);
    assert Cmp(b, f0[i], f0[j], h) <= 0;
    if r < j {
      assert IsSet(t, j);
      assert IsSet(t0, j);
      HeadersSeparate(b, f0, t0, h, i, j, j);
    } else if j == i + 1 {
      assert IsSet(t0, j) <==> Cmp(b, f0[j - 1], f0[j], h) != 0;
    }
  }

  /** At the end the order is that of whole rotations. */
  lemma FinalOrder(b: seq<Byte>, f: seq<int>, t: seq<bv32>, h: nat)
    requires |b| > 0 && Refined(b, f, t, h)
    requires h > |b| || forall i | 0 <= i < |b| :: IsSet(t, i)
    ensures IsRotationOrder(b, f)
  {
    forall i, j | 0 <= i < j < |b| ensures NotAfter(b, f[i], f[j]) {
      assert Cmp(b, f[i], f[j], h) <= 0;
      if h > |b| {
        CmpShorter(b, f[i], f[j], |b|, h);
      } else {
        HeadersSeparate(b, f, t, h, i, j, j);
        CmpShorter(b, f[i], f[j], h, |b|);
      }
    }
  }

  // ---- the initial bucket sort on one byte ----

  /** Some bucket starts at position i. */
  ghost predicate IsStart(b: seq<Byte>, i: int) {
    exists c | 0 <= c < 256 :: Start(b, c) == i
  }

  /** Position i starts a new bucket exactly when its first byte differs from its left neighbour's. */
  lemma StartsAreChanges(b: seq<Byte>, f: seq<int>, i: int)
    requires Bucketed(b, f) && 0 < i < |b|
    ensures IsStart(b, i) <==> b[f[i - 1]] != b[f[i]]
  {
    var c0, c1 := b[f[i - 1]], b[f[i]];
    assert InBucket(b, c0, i - 1) && InBucket(b, c1, i);
    BucketOrder(b, c0, i - 1, c1, i);
    if c0 < c1 {
      StartMonotonic(b, c0 + 1, c1);
      assert Start(b, c1) == i;
    }
    if c0 == c1 {
      forall c | 0 <= c < 256 ensures Start(b, c) != i {
        if c <= c0 { StartMonotonic(b, c, c0); } else { StartMonotonic(b, c0 + 1, c); }
      }
    }
  }

  lemma StartsInRange(b: seq<Byte>, c: nat)
    requires c <= 256
    ensures 0 <= Start(b, c) <= |b|
  {
    StartTotal(b, 256);
    StartMonotonic(b, c, 256);
  }

  /** Sorted by the first byte, with a header bit at every bucket start, is refined to depth 1. */
  lemma BucketsRefined(b: seq<Byte>, f: seq<int>, t: seq<bv32>)
    requires |b| > 0 && Bucketed(b, f)
    requires |b| + 1 < 32 * |t| && IsSet(t, |b|) && !IsSet(t, |b| + 1)
    requires forall i | 0 <= i < |b| :: IsSet(t, i) <==> IsStart(b, i)
    ensures Refined(b, f, t, 1)
  {
    hide IsSet, IsStart, Cmp, InBucket;
    StartsAtZero(b);
    forall i, j | 0 <= i < j < |b| ensures Cmp(b, f[i], f[j], 1) <= 0 {
      BucketedSorted(b, f, i, j);
      CmpOneByte(b, f[i], f[j]);
    }
    forall i | 0 < i < |b| ensures IsSet(t, i) <==> Cmp(b, f[i - 1], f[i], 1) != 0 {
      StartsAreChanges(b, f, i);
      CmpOneByte(b, f[i - 1], f[i]);
    }
  }

  lemma StartsAtZero(b: seq<Byte>)
    ensures IsStart(b, 0)
  {
    assert Start(b, 0) == 0;
  }

  lemma CmpOneByte(b: seq<Byte>, x: int, y: int)
    requires 0 <= x < |b| && 0 <= y < |b|
    ensures Cmp(b, x, y, 1) <= 0 <==> b[x] <= b[y]
    ensures Cmp(b, x, y, 1) == 0 <==> b[x] == b[y]
  {
  }

  /** ftab[c] counts the bytes c. */
  method CountBytes(block: array<Byte>, nblock: int) returns (ftab: array<int>, ftabCopy: array<int>)
    requires 0 <= nblock <= block.Length
    ensures fresh(ftab) && fresh(ftabCopy) && ftab != ftabCopy
    ensures ftab.Length == 257 && ftabCopy.Length == 256
    ensures forall c | 0 <= c < 256 :: ftab[c] == ftabCopy[c] == multiset(block[..nblock])[c]
    ensures ftab[256] == 0
  {
    hide Count;
    ftab := new int[257];
    ftabCopy := new int[256];
    ghost var b := block[..nblock];
    var i := 0;
    while i < 257
      invariant 0 <= i <= 257
      invariant forall c | 0 <= c < i :: ftab[c] == 0
    {
      ftab[i] := 0;
      i := i + 1;
    }
    i := 0;
    forall c | 0 <= c < 256 ensures Count(b, 0, c) == 0 { CountNone(b, c); }
    while i < nblock
      invariant 0 <= i <= nblock && block[..nblock] == b
      invariant forall c | 0 <= c < 256 :: ftab[c] == Count(b, i, c)
      invariant ftab[256] == 0
    {
      forall c | 0 <= c < 256 { CountStep(b, i, c); }
      assert block[i] == b[i];
      ftab[block[i]] := ftab[block[i]] + 1;
      i := i + 1;
    }
    forall c | 0 <= c < 256 ensures ftab[c] == multiset(b)[c] { CountAll(b, c); }
    i := 0;
    while i < 256
      invariant 0 <= i <= 256
      invariant forall c | 0 <= c < i :: ftabCopy[c] == ftab[c]
      modifies ftabCopy
    {
      ftabCopy[i] := ftab[i];
      i := i + 1;
    }
  }

  /** Running sums turn the counts into the ends of the buckets. */
  method SumCounts(ghost b: seq<Byte>, ftab: array<int>)
    requires ftab.Length == 257
    requires forall c | 0 <= c < 256 :: ftab[c] == multiset(b)[c]
    requires ftab[256] == 0
    modifies ftab
    ensures forall c | 0 <= c < 256 :: ftab[c] == Start(b, c + 1)
  {
    var i := 1;
    while i < 257
      invariant 1 <= i <= 257
      invariant forall c | 0 <= c < i && c < 256 :: ftab[c] == Start(b, c + 1)
      invariant forall c | i <= c < 256 :: ftab[c] == multiset(b)[c]
    {
      ftab[i] := ftab[i] + ftab[i - 1];
      i := i + 1;
    }
  }

  /** Every index goes to the end of what is left of its bucket. */
  method PlaceIndexes(block: array<Byte>, ftab: array<int>, fmap: array<int>, nblock: int)
    requires 0 <= nblock == fmap.Length <= block.Length
    requires ftab.Length == 257 && ftab != fmap && block as object != ftab && block as object != fmap
    requires forall c | 0 <= c < 256 :: ftab[c] == Start(block[..nblock], c + 1)
    modifies ftab, fmap
    ensures Bucketed(block[..nblock], fmap[..])
    ensures forall c | 0 <= c < 256 :: ftab[c] == Start(block[..nblock], c)
  {
    hide Count, Start, Bucketed;
    ghost var b := block[..nblock];
    ghost var place := [];
    var i := 0;
    forall c | 0 <= c < 256 ensures Count(b, 0, c) == 0 { CountNone(b, c); }
    while i < nblock
      invariant 0 <= i <= nblock == |b| && block[..nblock] == b
      invariant |place| == i && NoDuplicates(place)
      invariant forall c | 0 <= c < 256 :: ftab[c] == Start(b, c + 1) - Count(b, i, c)
      invariant forall m | 0 <= m < i :: place[m] == DownPlace(b, m)
      invariant forall m | 0 <= m < i :: 0 <= place[m] < nblock && fmap[place[m]] == m
    {
      var j := block[i];
      assert j == b[i];
      var k := ftab[j] - 1;
      PlacesInBucket(b, i);
      PlaceInRange(b, 256, b[i], DownPlace(b, i));
      forall m | 0 <= m < i ensures place[m] != k { PlacesDiffer(b, m, i); }
      forall c | 0 <= c < 256 { CountStep(b, i, c); }
      ftab[j] := k;
      fmap[k] := i;
      place := place + [k];
      i := i + 1;
    }
    forall m | 0 <= m < nblock ensures InBucket(b, b[m], place[m]) { PlacesInBucket(b, m); }
    PlacedIsBucketed(b, 256, place, fmap[..]);
    forall c | 0 <= c < 256 ensures ftab[c] == Start(b, c) {
      CountAll(b, c);
      StartStep(b, c);
    }
  }

  /** Header bits at the bucket starts, then the sentinels behind the block. */
  method InitialHeaders(ghost b: seq<Byte>, ftab: array<int>, bhtab: array<bv32>, nblock: int)
    requires nblock == |b| && ftab.Length == 257 && nblock + 63 < 32 * bhtab.Length
    requires ftab as object != bhtab
    requires forall c | 0 <= c < 256 :: ftab[c] == Start(b, c)
    modifies bhtab
    ensures IsSet(bhtab[..], nblock) && !IsSet(bhtab[..], nblock + 1)
    ensures forall i | 0 <= i < nblock :: IsSet(bhtab[..], i) <==> IsStart(b, i)
  {
    hide Start, IsSet;
    var nBhtab := 2 + nblock / 32;
    var i := 0;
    while i < nBhtab
      invariant 0 <= i <= nBhtab
      invariant forall w | 0 <= w < i :: bhtab[w] == 0
    {
      bhtab[i] := 0;
      i := i + 1;
    }
    forall k | 0 <= k < nblock ensures !IsSet(bhtab[..], k) { ClearWordClear(bhtab[..], k); }
    i := 0;
    while i < 256
      invariant 0 <= i <= 256
      invariant forall k | 0 <= k < nblock :: IsSet(bhtab[..], k) <==> exists c | 0 <= c < i :: Start(b, c) == k
    {
      StartsInRange(b, i);
      SetBit(bhtab, ftab[i]);
      i := i + 1;
    }
    i := 0;
    while i < 32
      invariant 0 <= i <= 32
      invariant forall k | 0 <= k < nblock :: IsSet(bhtab[..], k) <==> exists c | 0 <= c < 256 :: Start(b, c) == k
      invariant i > 0 ==> IsSet(bhtab[..], nblock) && !IsSet(bhtab[..], nblock + 1)
    {
      SetBit(bhtab, nblock + 2 * i);
      ClearBit(bhtab, nblock + 2 * i + 1);
      i := i + 1;
    }
  }

  // ---- the refinement loop ----

  /** Sets the header bits inside a freshly sorted bucket. */
  method RescanBucket(fmap: array<int>, eclass: seq<int>, bhtab: array<bv32>, l: int, r: int)
    requires Indexes(fmap[..], l, r + 1, 0, |eclass|) && l <= r && r + 1 < 32 * bhtab.Length
    requires forall x | 0 <= x < |eclass| :: 0 <= eclass[x]
    requires fmap as object != bhtab
    modifies bhtab
    ensures Marked(old(bhtab[..]), bhtab[..], eclass, fmap[..], l, r + 1)
  {
    hide IsSet;
    ghost var t, f := bhtab[..], fmap[..];
    var cc := -1;
    var i := l;
    while i <= r
      invariant l <= i <= r + 1 && fmap[..] == f
      invariant cc == if i == l then -1 else eclass[f[i - 1]]
      invariant Marked(t, bhtab[..], eclass, f, l, i)
    {
      var cc1 := eclass[fmap[i]];
      if cc != cc1 {
        SetBit(bhtab, i);
        cc := cc1;
      }
      i := i + 1;
    }
  }

  /** One pass: find each bucket that is not a single entry, sort it by class, mark its new parts. */
  method RefinePass(ghost b: seq<Byte>, fmap: array<int>, eclass: seq<int>, bhtab: array<bv32>,
                    nblock: int, ghost H: nat)
    returns (nNotDone: int)
    requires nblock == |b| == fmap.Length && 0 < nblock <= INT32_MAX && fmap as object != bhtab
    requires Refined(b, fmap[..], bhtab[..], H) && Classes(b, H, eclass)
    modifies fmap, bhtab
    ensures Refined(b, fmap[..], bhtab[..], 2 * H)
    ensures nNotDone == 0 ==> forall i | 0 <= i < nblock :: 0 <= i < 32 * bhtab.Length && IsSet(bhtab[..], i)
  {
    hide Refined, Classes, Passing, IsSet, Marked, SortedBy, Rearranged, Indexes;
    ghost var f0, t0 := fmap[..], bhtab[..];
    PassStarts(b, f0, t0, eclass, H);
    PassBasics(b, f0, t0, eclass, f0, t0, H, -1);
    nNotDone := 0;
    var r := -1;
    while true
      invariant -1 <= r < nblock && 0 <= nNotDone
      invariant Passing(b, f0, t0, eclass, fmap[..], bhtab[..], H, r)
      invariant nNotDone == 0 ==> forall i | 0 <= i <= r :: 0 <= i < 32 * bhtab.Length && IsSet(bhtab[..], i)
      invariant nblock + 1 < 32 * bhtab.Length
      decreases nblock - r
    {
      ghost var f, t := fmap[..], bhtab[..];
      PassBasics(b, f0, t0, eclass, f, t, H, r);
      var k := NextClear(bhtab, r + 1, nblock + 1);
      var l := k - 1;
      if l >= nblock {
        break;
      }
      k := NextSet(bhtab, k, nblock);
      var r1 := k - 1;
      if r1 >= nblock { break; }
      if r1 > l {
        nNotDone := nNotDone + (r1 - l + 1);
        IndexesInner(f, 0, nblock, l, r1 + 1, |eclass|);
        FallbackQSort3(fmap, eclass, l, r1);
        RescanBucket(fmap, eclass, bhtab, l, r1);
        PassBucket(b, f0, t0, eclass, f, t, fmap[..], bhtab[..], H, r, l, r1);
      }
      r := r1;
    }
    PassBasics(b, f0, t0, eclass, fmap[..], bhtab[..], H, r);
    PassEnds(b, f0, t0, eclass, fmap[..], bhtab[..], H, r);
  }

  lemma IndexesInner(f: seq<int>, lo: int, hi: int, lo': int, hi': int, n: int)
    requires Indexes(f, lo, hi, 0, n) && lo <= lo' <= hi' <= hi
    ensures Indexes(f, lo', hi', 0, n)
  {
  }

  // ---- rebuilding the block ----

  /** The bytes in the order of f. */
  ghost function FirstColumn(b: seq<Byte>, f: seq<int>): (r: seq<Byte>)
    requires forall i | 0 <= i < |f| :: 0 <= f[i] < |b|
    ensures |r| == |f| && forall i | 0 <= i < |f| :: r[i] == b[f[i]]
  {
    seq(|f|, i requires 0 <= i < |f| => b[f[i]])
  }

  lemma FirstColumnCounts(b: seq<Byte>, f: seq<int>)
    requires IsPermutation(f, |b|)
    ensures multiset(FirstColumn(b, f)) == multiset(b)
  {
    var at := i => if 0 <= i < |b| then b[i] as int else 0;
    PermutationMultiset(f, |b|);
    MapMultiset(at, f, Iota(|b|));
    assert Map(at, f) == FirstColumn(b, f);
    assert Map(at, Iota(|b|)) == b;
  }

  lemma FirstColumnAscending(b: seq<Byte>, f: seq<int>)
    requires |b| > 0 && IsRotationOrder(b, f)
    ensures Ascending(FirstColumn(b, f))
  {
    forall i, j | 0 <= i < j < |f| ensures b[f[i]] <= b[f[j]] {
      assert NotAfter(b, f[i], f[j]);
      assert At(b, f[i]) == b[f[i]] && At(b, f[j]) == b[f[j]];
    }
  }

  /** The block is rebuilt from the byte counts alone: the i-th smallest byte belongs where the i-th
      rotation starts. */
  method Reconstruct(ghost b: seq<Byte>, fmap: array<int>, ftabCopy: array<int>, block: array<Byte>, nblock: int)
    requires 0 < nblock == |b| == fmap.Length <= block.Length
    requires ftabCopy.Length == 256 && ftabCopy != fmap && block as object != ftabCopy && block as object != fmap
    requires IsRotationOrder(b, fmap[..])
    requires forall c | 0 <= c < 256 :: ftabCopy[c] == multiset(b)[c]
    modifies ftabCopy, block
    ensures block[..nblock] == b
  {
    hide IsRotationOrder, Remaining, IsPermutation, Ascending;
    ghost var f := fmap[..];
    OrderIsPermutation(b, f);
    ghost var col := FirstColumn(b, f);
    FirstColumnAscending(b, f);
    forall c | 0 <= c < 256 ensures Remaining(col, 0, c) == multiset(b)[c] { RemainingAll(b, f, c); }
    var i, j := 0, 0;
    while i < nblock
      invariant 0 <= i <= nblock && fmap[..] == f && 0 <= j < 256
      invariant forall c | 0 <= c < 256 :: ftabCopy[c] == Remaining(col, i, c)
      invariant i < nblock ==> j <= col[i]
      invariant forall m | 0 <= m < i :: block[f[m]] == b[f[m]]
    {
      RemainingStep(col, i);
      while ftabCopy[j] == 0
        invariant 0 <= j <= col[i] && ftabCopy[col[i]] > 0
        decreases col[i] - j
      {
        j := j + 1;
      }
      NoneBelow(col, i, j);
      ftabCopy[j] := ftabCopy[j] - 1;
      block[fmap[i]] := j;
      NextNotBelow(col, i);
      i := i + 1;
    }
    assert j < 256;   // assertion 1005
    forall k | 0 <= k < nblock ensures block[k] == b[k] {
      var m := PermutationIndex(f, nblock, k);
    }
  }

  /** How many bytes c are still to come. */
  ghost function Remaining(col: seq<Byte>, i: int, c: int): nat
    requires 0 <= i <= |col|
  {
    multiset(col[i..])[c]
  }

  lemma RemainingAll(b: seq<Byte>, f: seq<int>, c: int)
    requires IsPermutation(f, |b|)
    ensures Remaining(FirstColumn(b, f), 0, c) == multiset(b)[c]
  {
    FirstColumnCounts(b, f);
    assert FirstColumn(b, f)[0..] == FirstColumn(b, f);
  }

  lemma RemainingStep(col: seq<Byte>, i: int)
    requires 0 <= i < |col|
    ensures Remaining(col, i, col[i]) > 0
    ensures forall c :: Remaining(col, i, c) == Remaining(col, i + 1, c) + if c == col[i] then 1 else 0
  {
    assert col[i..] == [col[i]] + col[i + 1..];
  }

  lemma NextNotBelow(col: seq<Byte>, i: int)
    requires Ascending(col) && 0 <= i < |col|
    ensures i + 1 < |col| ==> col[i] <= col[i + 1]
  {
  }

  lemma OrderIsPermutation(b: seq<Byte>, f: seq<int>)
    requires |b| > 0 && IsRotationOrder(b, f)
    ensures IsPermutation(f, |b|) && |f| == |b|
    ensures forall i | 0 <= i < |b| :: 0 <= f[i] < |b|
  {
  }

  /** A byte still to come is not below the next one. */
  lemma NoneBelow(col: seq<Byte>, i: int, j: int)
    requires Ascending(col) && 0 <= i < |col|
    requires Remaining(col, i, j) > 0
    ensures col[i] <= j
  {
    assert j in multiset(col[i..]);
    assert j in col[i..];
    var k :| 0 <= k < |col[i..]| && col[i..][k] == j;
    assert col[i + k] == j;
  }

  // ---- the sorter ----

  /** fallbackSort: fmap becomes a sorted order of the rotations of the block, for every non-empty
      block, periodic or not; the block is destroyed on the way and rebuilt. */
  method FallbackSort(fmap: array<int>, eclass: array<int>, block: array<Byte>, bhtab: array<bv32>, nblock: int)
    requires 0 < nblock == fmap.Length == eclass.Length <= block.Length && nblock <= INT32_MAX
    requires nblock + 63 < 32 * bhtab.Length
    requires fmap != eclass && bhtab as object != fmap && bhtab as object != eclass && bhtab as object != block
    requires block as object != fmap && block as object != eclass
    modifies fmap, eclass, block, bhtab
    ensures block[..nblock] == old(block[..nblock])
    ensures IsRotationOrder(block[..nblock], fmap[..])
  {
    hide Refined, Classes, IsRotationOrder, Bucketed, Start, IsSet;
    ghost var b := block[..nblock];
    var ftab, ftabCopy := CountBytes(block, nblock);
    SumCounts(b, ftab);
    PlaceIndexes(block, ftab, fmap, nblock);
    InitialHeaders(b, ftab, bhtab, nblock);
    BucketsRefined(b, fmap[..], bhtab[..]);
    var H := 1;
    while true
      invariant 1 <= H <= nblock
      invariant Refined(b, fmap[..], bhtab[..], H)
      invariant forall c | 0 <= c < 256 :: ftabCopy[c] == multiset(b)[c]
      decreases nblock - H
    {
      NumberClasses(b, fmap, eclass, block, bhtab, nblock, H);
      var nNotDone := RefinePass(b, fmap, eclass[..], bhtab, nblock, H);
      H := H * 2;
      if H > nblock || nNotDone == 0 {
        FinalOrder(b, fmap[..], bhtab[..], H);
        break;
      }
    }
    Reconstruct(b, fmap, ftabCopy, block, nblock);
  }
}
