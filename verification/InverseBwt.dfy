/** The last column of the sorted rotations, and why following the vector T^(-1) from the row of the
    block gives the block back, whatever order equal rotations were sorted in. */
module InverseBwt {
  import opened Permutations
  import opened Rotations
  import opened Buckets
  import opened CopyScan

  /** What the encoder transmits: the byte before each sorted rotation. */
  ghost function LastColumn(b: seq<Byte>, p: seq<int>): (r: seq<Byte>)
    requires |b| > 0 && IsPermutation(p, |b|)
    ensures |r| == |b| && forall i | 0 <= i < |b| :: r[i] == b[Pred(p[i], |b|)]
  {
    seq(|b|, i requires 0 <= i < |b| => b[Pred(p[i], |b|)])
  }

  /** ti is T^(-1) of the last column: entry k is the row whose last byte is the k-th in stable byte
      order. It exists for every column, sorted rotations or not. */
  ghost predicate IsInverse(col: seq<Byte>, ti: seq<int>) {
    && |ti| == |col|
    && (forall k | 0 <= k < |col| :: 0 <= ti[k] < |col| && UpPlace(col, ti[k]) == k)
  }

  lemma PlaceBounded(col: seq<Byte>, i: int)
    requires 0 <= i < |col|
    ensures 0 <= UpPlace(col, i) < |col|
  {
    PlacesInBucket(col, i);
    PlaceInRange(col, 256, col[i], UpPlace(col, i));
  }

  lemma InverseOfPlace(col: seq<Byte>, ti: seq<int>, i: int)
    requires IsInverse(col, ti) && 0 <= i < |col|
    ensures 0 <= UpPlace(col, i) < |col| && ti[UpPlace(col, i)] == i
  {
    hide UpPlace;
    PlaceBounded(col, i);
    var k := UpPlace(col, i);
    if ti[k] < i { PlacesDiffer(col, ti[k], i); }
    if i < ti[k] { PlacesDiffer(col, i, ti[k]); }
  }

  lemma RowExists(col: seq<Byte>, k: int)
    requires 0 <= k < |col|
    ensures exists i :: 0 <= i < |col| && UpPlace(col, i) == k
  {
    hide UpPlace;
    var n := |col|;
    forall i | 0 <= i < n ensures 0 <= UpPlace(col, i) < n { PlaceBounded(col, i); }
    var place := seq(n, i requires 0 <= i < n => UpPlace(col, i));
    forall i, j | 0 <= i < j < n ensures place[i] != place[j] { PlacesDiffer(col, i, j); }
    var i := PermutationIndex(place, n, k);
  }

  /** The row whose last byte is the k-th in stable byte order. */
  ghost function RowFor(col: seq<Byte>, k: int): (i: int)
    requires 0 <= k < |col|
    ensures 0 <= i < |col| && UpPlace(col, i) == k
  {
    RowExists(col, k);
    var i :| 0 <= i < |col| && UpPlace(col, i) == k;
    i
  }

  /** T^(-1) of any column. */
  ghost function Inverse(col: seq<Byte>): (ti: seq<int>)
    ensures IsInverse(col, ti)
  {
    seq(|col|, k requires 0 <= k < |col| => RowFor(col, k))
  }

  lemma InverseIsPermutation(col: seq<Byte>, ti: seq<int>)
    requires IsInverse(col, ti)
    ensures IsPermutation(ti, |col|)
  {
    hide UpPlace;
    forall k, k' | 0 <= k < k' < |ti| ensures ti[k] != ti[k'] {
      assert UpPlace(col, ti[k]) == k && UpPlace(col, ti[k']) == k';
    }
  }

  /** T^(-1) moves along the rows in the order of their last bytes, and in row order among equals. */
  lemma InverseOrder(col: seq<Byte>, ti: seq<int>, k: int, k': int)
    requires IsInverse(col, ti) && 0 <= k < k' < |col|
    ensures col[ti[k]] < col[ti[k']] || (col[ti[k]] == col[ti[k']] && ti[k] < ti[k'])
  {
    hide UpPlace, Start;
    PlacesInBucket(col, ti[k]);
    PlacesInBucket(col, ti[k']);
    BucketOrder(col, col[ti[k]], k, col[ti[k']], k');
    if col[ti[k]] == col[ti[k']] && ti[k'] <= ti[k] {
      if ti[k'] < ti[k] { PlacesDiffer(col, ti[k'], ti[k]); }
    }
  }

  // ---- the key fact: row k is row T^(-1)(k) with its last byte moved to the front ----

  /** The rotations that T^(-1) pairs with the rows. */
  ghost function Paired(b: seq<Byte>, p: seq<int>, ti: seq<int>): (q: seq<int>)
    requires |b| > 0 && IsPermutation(p, |b|) && |ti| == |b| && forall k | 0 <= k < |b| :: 0 <= ti[k] < |b|
    ensures |q| == |b| && forall k | 0 <= k < |b| :: q[k] == Pred(p[ti[k]], |b|) && 0 <= q[k] < |b|
  {
    seq(|b|, k requires 0 <= k < |b| => Pred(p[ti[k]], |b|))
  }

  lemma PairedPermutation(b: seq<Byte>, p: seq<int>, ti: seq<int>)
    requires |b| > 0 && IsPermutation(p, |b|) && IsPermutation(ti, |b|)
    ensures IsPermutation(Paired(b, p, ti), |b|)
  {
    var q := Paired(b, p, ti);
    forall k, k' | 0 <= k < k' < |b| ensures q[k] != q[k'] {
      assert ti[k] != ti[k'];
      assert p[ti[k]] != p[ti[k']] by {
        if ti[k] < ti[k'] { assert p[ti[k]] != p[ti[k']]; } else { assert p[ti[k']] != p[ti[k]]; }
      }
      SuccPred(p[ti[k]], |b|);
      SuccPred(p[ti[k']], |b|);
    }
  }

  lemma PairedAscends(b: seq<Byte>, rk: seq<int>, p: seq<int>, ti: seq<int>, k: int, k': int)
    requires |b| > 0 && Ranks(b, |b|, rk) && IsRotationOrder(b, p)
    requires IsInverse(LastColumn(b, p), ti) && 0 <= k < k' < |b|
    ensures var q := Paired(b, p, ti); rk[q[k]] <= rk[q[k']]
  {
    hide UpPlace, Ranks;
    RankSize(b, rk);
    var n, q, col := |b|, Paired(b, p, ti), LastColumn(b, p);
    InverseOrder(col, ti, k, k');
    SuccPred(p[ti[k]], n);
    SuccPred(p[ti[k']], n);
    if b[q[k]] < b[q[k']] {
      if rk[q[k']] < rk[q[k]] { FirstByteOrder(b, rk, q[k'], q[k]); }
    } else {
      assert NotAfter(b, p[ti[k]], p[ti[k']]);
      RanksEqual(b, n, rk, p[ti[k]], p[ti[k']]);
      PrependKeepsOrder(b, rk, q[k], q[k']);
    }
  }

  lemma RankSize(b: seq<Byte>, rk: seq<int>)
    requires |b| > 0 && Ranks(b, |b|, rk)
    ensures |rk| == |b|
  {
  }

  /** Two sorted listings of the same rotations agree row by row, as strings. */
  lemma RowsAgree(b: seq<Byte>, rk: seq<int>, p: seq<int>, ti: seq<int>, k: int)
    requires |b| > 0 && Ranks(b, |b|, rk) && IsRotationOrder(b, p)
    requires IsInverse(LastColumn(b, p), ti) && 0 <= k < |b|
    ensures rk[p[k]] == rk[Pred(p[ti[k]], |b|)]
  {
    hide UpPlace, Ranks;
    RankSize(b, rk);
    var n, q := |b|, Paired(b, p, ti);
    var at := i => if 0 <= i < |rk| then rk[i] else 0;
    InverseIsPermutation(LastColumn(b, p), ti);
    PairedPermutation(b, p, ti);
    PermutationMultiset(p, n);
    PermutationMultiset(q, n);
    MapMultiset(at, p, q);
    forall i, j | 0 <= i < j < n ensures at(p[i]) <= at(p[j]) && at(q[i]) <= at(q[j]) {
      assert NotAfter(b, p[i], p[j]);
      RanksEqual(b, n, rk, p[i], p[j]);
      PairedAscends(b, rk, p, ti, i, j);
    }
    AscendingUnique(Map(at, p), Map(at, q));
    assert Map(at, p)[k] == Map(at, q)[k];
  }

  // ---- following T^(-1) ----

  /** The row reached from row o after k steps. */
  ghost function Walk(ti: seq<int>, o: int, k: nat): int
    requires 0 <= o < |ti| && forall i | 0 <= i < |ti| :: 0 <= ti[i] < |ti|
    ensures 0 <= Walk(ti, o, k) < |ti|
  {
    if k == 0 then o else ti[Walk(ti, o, k - 1)]
  }

  /** The m bytes the decoder produces from row o: the last bytes of the rows it reaches. */
  ghost function Decoded(col: seq<Byte>, ti: seq<int>, o: int, m: nat): (r: seq<Byte>)
    requires |ti| == |col| && 0 <= o < |ti| && forall i | 0 <= i < |ti| :: 0 <= ti[i] < |ti|
    ensures |r| == m && forall k | 0 <= k < m :: r[k] == col[Walk(ti, o, k + 1)]
  {
    seq(m, k requires 0 <= k < m => col[Walk(ti, o, k + 1)])
  }

  /** After k steps the decoder stands on a row equal to the rotation that starts at byte k. */
  lemma {:induction false} WalkFollowsBlock(b: seq<Byte>, rk: seq<int>, p: seq<int>, ti: seq<int>, o: int, k: nat)
    requires |b| > 0 && Ranks(b, |b|, rk) && IsRotationOrder(b, p)
    requires IsInverse(LastColumn(b, p), ti)
    requires 0 <= o < |b| && p[o] == 0
    requires k < |b|
    ensures rk[p[Walk(ti, o, k)]] == rk[k]
    ensures b[Pred(p[Walk(ti, o, k + 1)], |b|)] == b[k]
    decreases k
  {
    hide UpPlace, Ranks, IsRotationOrder, LastColumn;
    RankSize(b, rk);
    OrderFacts(b, p);
    var n := |b|;
    if k > 0 {
      WalkFollowsBlock(b, rk, p, ti, o, k - 1);
      var r := Walk(ti, o, k);
      var r' := Walk(ti, o, k - 1);
      assert r == ti[r'];
      RowsAgree(b, rk, p, ti, r');
      SuccPred(p[r], n);
      NextEqual(b, rk, Pred(p[r], n), k - 1);
    }
    var row := Walk(ti, o, k);
    RowsAgree(b, rk, p, ti, row);
    SuccPred(p[ti[row]], n);
    SameFirstByte(b, rk, Pred(p[ti[row]], n), k);
  }

  lemma OrderFacts(b: seq<Byte>, p: seq<int>)
    requires |b| > 0 && IsRotationOrder(b, p)
    ensures IsPermutation(p, |b|) && |p| == |b|
    ensures forall i | 0 <= i < |b| :: 0 <= p[i] < |b|
  {
  }

  /** Equal rotations stay equal one byte further. */
  lemma NextEqual(b: seq<Byte>, rk: seq<int>, x: int, y: int)
    requires |b| > 0 && Ranks(b, |b|, rk) && 0 <= x < |b| && 0 <= y < |b| - 1 && rk[x] == rk[y]
    ensures 0 <= Succ(x, |b|) < |b| && rk[Succ(x, |b|)] == rk[y + 1]
  {
    hide Ranks;
    RankSize(b, rk);
    SameFirstByte(b, rk, x, y);
    PrependKeepsOrder(b, rk, x, y);
    PrependKeepsOrder(b, rk, y, x);
  }

  lemma SameFirstByte(b: seq<Byte>, rk: seq<int>, x: int, y: int)
    requires |b| > 0 && Ranks(b, |b|, rk) && 0 <= x < |b| && 0 <= y < |b| && rk[x] == rk[y]
    ensures b[x] == b[y]
  {
    FirstByteOrder(b, rk, x, y);
    FirstByteOrder(b, rk, y, x);
  }

  /** The transform is invertible: for every non-empty block and every sorted rotation order, following
      T^(-1) of the last column for |b| steps from the row of the block returns the block. */
  lemma InverseReturnsBlock(b: seq<Byte>, p: seq<int>, ti: seq<int>, o: int)
    requires |b| > 0 && IsRotationOrder(b, p)
    requires IsInverse(LastColumn(b, p), ti)
    requires 0 <= o < |b| && p[o] == 0
    ensures Decoded(LastColumn(b, p), ti, o, |b|) == b
  {
    hide UpPlace, Ranks, IsRotationOrder;
    OrderFacts(b, p);
    var rk := RanksExist(b, |b|);
    forall k | 0 <= k < |b| ensures Decoded(LastColumn(b, p), ti, o, |b|)[k] == b[k] {
      WalkFollowsBlock(b, rk, p, ti, o, k);
    }
  }
}
