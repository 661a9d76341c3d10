/** The decoder's two representations of the vector T^(-1): one 32-bit word per byte of the block (FAST),
    or 4+16-bit packed links whose cycle through origPtr is reversed in place (SMALL). */
module InverseVectors {
  import opened Permutations
  import opened Buckets
  import opened InverseBwt

  /** The largest block, in bytes: positions need 20 bits. */
  const MAX_BLOCK := 900000

  /** cftab holds the start of every bucket of the column. */
  ghost predicate IsCftab(cftab: seq<int>, col: seq<Byte>) {
    |cftab| == 257 && forall c | 0 <= c <= 256 :: cftab[c] == Start(col, c)
  }

  /** Bucket starts from byte counts. For true counts none of the three sanity checks can fail. */
  method BuildCftab(unzftab: array<int>, cftab: array<int>, nblock: int, ghost col: seq<Byte>) returns (ok: bool)
    requires unzftab.Length == 256 && cftab.Length == 257 && unzftab != cftab && nblock == |col|
    requires forall c | 0 <= c < 256 :: unzftab[c] == multiset(col)[c]
    modifies cftab
    ensures ok && IsCftab(cftab[..], col)
  {
    hide Start;
    forall c: nat | c <= 256 ensures 0 <= Start(col, c) <= nblock {
      StartTotal(col, 256);
      StartMonotonic(col, c, 256);
    }
    forall c: nat | c <= 256 ensures Start(col, c + 1) == Start(col, c) + multiset(col)[c as int] {
      StartStep(col, c);
    }
    StartZero(col);
    ok := true;
    for i := 0 to 256
      invariant ok
    {
      if unzftab[i] < 0 || unzftab[i] > nblock {
        CountsFit(col, i);
        return false;
      }
    }
    cftab[0] := 0;
    for i := 1 to 257
      invariant cftab[0] == 0 && forall c | 1 <= c < i :: cftab[c] == unzftab[c - 1]
    {
      cftab[i] := unzftab[i - 1];
    }
    for i := 1 to 257
      invariant forall c | 0 <= c < i :: cftab[c] == Start(col, c)
      invariant forall c | i <= c <= 256 :: cftab[c] == unzftab[c - 1]
    {
      cftab[i] := cftab[i] + cftab[i - 1];
    }
    for i := 0 to 257
      invariant ok
    {
      if cftab[i] < 0 || cftab[i] > nblock { return false; }
    }
    for i := 1 to 257
      invariant ok
    {
      if cftab[i - 1] > cftab[i] { return false; }
    }
  }

  lemma StartZero(col: seq<Byte>)
    ensures Start(col, 0) == 0
  {
  }

  lemma CountsFit(col: seq<Byte>, c: int)
    ensures 0 <= multiset(col)[c] <= |col|
  {
    assert multiset(col)[c] <= |multiset(col)|;
  }

  // ---- FAST: byte and link in one word ----

  /** tt[k] holds the byte of row k below the link of row k. */
  ghost predicate IsFastVector(tt: seq<int>, col: seq<Byte>, ti: seq<int>) {
    && |tt| >= |col| == |ti|
    && forall k | 0 <= k < |col| :: tt[k] == col[k] + 256 * ti[k]
  }

  /** While a column is being scanned the cursor of every bucket stands at its next free position. */
  ghost predicate Cursors(cftab: seq<int>, col: seq<Byte>, i: int)
    requires 0 <= i <= |col|
  {
    |cftab| == 257 && forall c | 0 <= c < 256 :: cftab[c] == Start(col, c) + Count(col, i, c)
  }

  lemma CursorsStart(cftab: seq<int>, col: seq<Byte>)
    requires IsCftab(cftab, col)
    ensures Cursors(cftab, col, 0)
  {
    forall c ensures Count(col, 0, c) == 0 { CountNone(col, c); }
  }

  /** The cursor of the bucket of row i is the place of row i. */
  lemma CursorStep(cftab: seq<int>, col: seq<Byte>, i: int)
    requires 0 <= i < |col| && Cursors(cftab, col, i)
    ensures cftab[col[i]] == UpPlace(col, i) && 0 <= cftab[col[i]] < |col|
    ensures Cursors(cftab[col[i] := cftab[col[i]] + 1], col, i + 1)
  {
    hide Start, Count;
    PlaceBounded(col, i);
    forall c ensures Count(col, i + 1, c) == Count(col, i, c) + if col[i] == c then 1 else 0 {
      CountStep(col, i, c);
    }
  }

  /** During the build the rows below i have been linked to from their places. */
  ghost predicate FastBuilding(tt: seq<int>, col: seq<Byte>, ti: seq<int>, i: int) {
    && |tt| >= |col| == |ti|
    && forall k | 0 <= k < |col| :: tt[k] == if ti[k] < i then col[k] + 256 * ti[k] else col[k] as int
  }

  lemma FastStep(tt: seq<int>, col: seq<Byte>, ti: seq<int>, i: int, k: int)
    requires IsInverse(col, ti) && 0 <= i < |col| && FastBuilding(tt, col, ti, i)
    requires k == UpPlace(col, i)
    ensures tt[i] % 256 == col[i]
    ensures 0 <= k < |col| && 0 <= tt[k] < 256
    ensures FastBuilding(tt[k := tt[k] + i * 256], col, ti, i + 1)
  {
    hide UpPlace;
    InverseOfPlace(col, ti, i);
    forall k' | 0 <= k' < |col| && k' != k ensures ti[k'] != i { assert UpPlace(col, ti[k']) == k'; }
  }

  /** Links every row to its place: the byte of a row survives in the low bits while the links are put above
      it, so that the bytes can still be read after the row has been linked. */
  method BuildFast(tt: array<int>, cftab: array<int>, nblock: int, ghost col: seq<Byte>)
    requires nblock == |col| <= tt.Length && nblock <= MAX_BLOCK && tt != cftab
    requires IsCftab(cftab[..], col)
    requires forall k | 0 <= k < nblock :: tt[k] == col[k]
    modifies tt, cftab
    ensures IsFastVector(tt[..], col, Inverse(col))
    ensures forall k | 0 <= k < nblock :: 0 <= tt[k] < 0x1_0000_0000
  {
    hide UpPlace, Start, Count, IsInverse;
    ghost var ti := Inverse(col);
    InverseBounds(col, ti);
    CursorsStart(cftab[..], col);
    for i := 0 to nblock
      invariant FastBuilding(tt[..], col, ti, i)
      invariant Cursors(cftab[..], col, i)
    {
      CursorStep(cftab[..], col, i);
      FastStep(tt[..], col, ti, i, UpPlace(col, i));
      var uc := tt[i] % 256;
      ghost var t, c := tt[..], cftab[..];
      tt[cftab[uc]] := tt[cftab[uc]] + i * 256;   // |= i << 8, the low byte being all there is
      cftab[uc] := cftab[uc] + 1;
      assert tt[..] == t[UpPlace(col, i) := t[UpPlace(col, i)] + i * 256];
      assert cftab[..] == c[col[i] := c[col[i]] + 1];
    }
  }

  lemma InverseBounds(col: seq<Byte>, ti: seq<int>)
    requires IsInverse(col, ti)
    ensures |ti| == |col| && forall k | 0 <= k < |col| :: 0 <= ti[k] < |col|
  {
  }

  // ---- SMALL: 20-bit links, the low 16 bits in ll16 and the high 4 in half a byte of ll4 ----

  /** The half-byte at i. */
  function GetLL4(ll4: seq<Byte>, i: int): (r: int)
    requires 0 <= i / 2 < |ll4|
    ensures 0 <= r < 16
  {
    if i % 2 == 0 then ll4[i / 2] % 16 else ll4[i / 2] / 16
  }

  /** The link at i. */
  function GetLL(ll16: seq<int>, ll4: seq<Byte>, i: int): int
    requires 0 <= i < |ll16| && i / 2 < |ll4|
  {
    ll16[i] + GetLL4(ll4, i) * 65536
  }

  /** The packed links, as far as they are used. */
  ghost predicate Holds(ll16: seq<int>, ll4: seq<Byte>, links: seq<int>) {
    && |ll16| >= |links| && |ll4| >= (1 + |links|) / 2
    && forall k | 0 <= k < |links| :: GetLL(ll16, ll4, k) == links[k]
  }

  /** Stores a 20-bit link without disturbing any other, in particular not the one sharing its byte. */
  method SetLL(ll16: array<int>, ll4: array<Byte>, i: int, n: int)
    requires 0 <= i < ll16.Length && i / 2 < ll4.Length && ll16 as object != ll4
    requires 0 <= n < 0x10_0000
    modifies ll16, ll4
    ensures GetLL(ll16[..], ll4[..], i) == n
    ensures ll16[..] == old(ll16[..])[i := n % 65536]
    ensures forall k | 0 <= k < 2 * ll4.Length && k != i :: GetLL4(ll4[..], k) == old(GetLL4(ll4[..], k))
  {
    ll16[i] := n % 65536;
    var high := n / 65536;
    var old4: int := ll4[i / 2];
    if i % 2 == 0 {
      ll4[i / 2] := old4 - old4 % 16 + high;
    } else {
      ll4[i / 2] := old4 % 16 + high * 16;
    }
    forall k | 0 <= k < 2 * ll4.Length && k != i ensures GetLL4(ll4[..], k) == old(GetLL4(ll4[..], k)) {
      if k / 2 == i / 2 { assert k % 2 != i % 2; }
    }
  }

  /** The first pass: rows below i hold their own place, the others still their byte. */
  ghost predicate SmallBuilding(ll16: seq<int>, ll4: seq<Byte>, col: seq<Byte>, i: int) {
    && |ll16| >= |col| && |ll4| >= (1 + |col|) / 2 && 0 <= i <= |col|
    && (forall k | 0 <= k < i :: GetLL(ll16, ll4, k) == UpPlace(col, k))
    && (forall k | i <= k < |col| :: ll16[k] == col[k])
  }

  /** The rows passed so far by the pointer reversal: it starts at o and follows T. */
  ghost predicate Trail(col: seq<Byte>, o: int, xs: seq<int>) {
    && |xs| >= 1 && xs[0] == o
    && (forall m | 0 <= m < |xs| :: 0 <= xs[m] < |col|)
    && (forall m | 1 <= m < |xs| :: xs[m] == UpPlace(col, xs[m - 1]))
  }

  /** The rows reached along the trail already point backwards, all others still forwards. */
  ghost predicate Reversing(ll16: seq<int>, ll4: seq<Byte>, col: seq<Byte>, ti: seq<int>, xs: seq<int>) {
    && |ll16| >= |col| == |ti| && |ll4| >= (1 + |col|) / 2 && |xs| >= 1
    && forall y | 0 <= y < |col| :: GetLL(ll16, ll4, y) == if y in xs[1..] then ti[y] else UpPlace(col, y)
  }

  /** The next row is not yet reversed: T is one-to-one, so the trail can only close at its start. */
  lemma NextIsFresh(col: seq<Byte>, ti: seq<int>, o: int, xs: seq<int>)
    requires IsInverse(col, ti) && Trail(col, o, xs) && NoDuplicates(xs)
    ensures |xs| <= |col|
    ensures var j := UpPlace(col, xs[|xs| - 1]);
      && 0 <= j < |col| && j !in xs[1..] && ti[j] == xs[|xs| - 1]
      && Trail(col, o, xs + [j])
      && (j != o ==> NoDuplicates(xs + [j]))
  {
    hide UpPlace;
    var last := |xs| - 1;
    InverseOfPlace(col, ti, xs[last]);
    var j := UpPlace(col, xs[last]);
    forall m | 1 <= m < |xs| ensures xs[m] != j {
      InverseOfPlace(col, ti, xs[m - 1]);
      assert xs[m - 1] != xs[last];
    }
    BelowFacts(|col|);
    Pigeonhole(xs, Below(|col|));
  }

  /** When the trail has closed, the whole cycle through o points backwards. */
  lemma {:induction false} CycleReversed(col: seq<Byte>, ti: seq<int>, o: int, xs: seq<int>, m: nat)
    requires IsInverse(col, ti) && Trail(col, o, xs) && |xs| >= 2 && xs[|xs| - 1] == o
    ensures Walk(ti, o, m) in xs[1..]
    decreases m
  {
    hide UpPlace;
    if m == 0 {
      assert xs[1..][|xs| - 2] == o;
    } else {
      CycleReversed(col, ti, o, xs, m - 1);
      var k :| 0 <= k < |xs| - 1 && xs[1..][k] == Walk(ti, o, m - 1);
      assert xs[k + 1] == Walk(ti, o, m - 1) && 0 <= xs[k] < |col|;
      InverseOfPlace(col, ti, xs[k]);
      if k == 0 {
        assert xs[1..][|xs| - 2] == o;
      } else {
        assert xs[1..][k - 1] == xs[k];
      }
    }
  }

  /** From row o on, the packed links agree with T^(-1); rows off that cycle may point anywhere. */
  ghost predicate IsSmallVector(ll16: seq<int>, ll4: seq<Byte>, ti: seq<int>, o: int) {
    && |ll16| >= |ti| && |ll4| >= (1 + |ti|) / 2
    && 0 <= o < |ti| && (forall k | 0 <= k < |ti| :: 0 <= ti[k] < |ti|)
    && forall m: nat :: GetLL(ll16, ll4, Walk(ti, o, m)) == Walk(ti, o, m + 1)
  }

  method BuildSmall(ll16: array<int>, ll4: array<Byte>, cftab: array<int>, cftabCopy: array<int>,
                    nblock: int, origPtr: int, ghost col: seq<Byte>)
    requires nblock == |col| <= ll16.Length && nblock <= MAX_BLOCK && (1 + nblock) / 2 <= ll4.Length
    requires ll16 != cftab && ll16 != cftabCopy && cftab != cftabCopy && cftabCopy.Length == 257
    requires ll4 as object != ll16 && ll4 as object != cftab && ll4 as object != cftabCopy
    requires IsCftab(cftab[..], col)
    requires forall k | 0 <= k < nblock :: ll16[k] == col[k]
    requires 0 <= origPtr < nblock
    modifies ll16, ll4, cftabCopy
    ensures IsSmallVector(ll16[..], ll4[..], Inverse(col), origPtr)
  {
    hide UpPlace, Start, Count, IsInverse, Walk;
    ghost var ti := Inverse(col);
    InverseBounds(col, ti);
    for i := 0 to 257
      invariant cftabCopy[..i] == cftab[..i]
      invariant cftab[..] == old(cftab[..]) && ll16[..] == old(ll16[..])
    {
      cftabCopy[i] := cftab[i];
    }
    assert cftabCopy[..] == cftab[..];
    CursorsStart(cftabCopy[..], col);
    for i := 0 to nblock
      invariant SmallBuilding(ll16[..], ll4[..], col, i)
      invariant Cursors(cftabCopy[..], col, i)
    {
      CursorStep(cftabCopy[..], col, i);
      ghost var c, l16, l4 := cftabCopy[..], ll16[..], ll4[..];
      var uc := ll16[i];
      SetLL(ll16, ll4, i, cftabCopy[uc]);
      cftabCopy[uc] := cftabCopy[uc] + 1;
      assert cftabCopy[..] == c[col[i] := c[col[i]] + 1];
      SmallStep(l16, l4, ll16[..], ll4[..], col, i);
    }

    var i, j := origPtr, GetLL(ll16[..], ll4[..], origPtr);
    ghost var xs := [origPtr];
    while true
      invariant Trail(col, origPtr, xs) && NoDuplicates(xs)
      invariant i == xs[|xs| - 1] && j == UpPlace(col, i)
      invariant Reversing(ll16[..], ll4[..], col, ti, xs)
      decreases nblock - |xs|
    {
      NextIsFresh(col, ti, origPtr, xs);
      ghost var l16, l4 := ll16[..], ll4[..];
      var tmp := GetLL(ll16[..], ll4[..], j);
      SetLL(ll16, ll4, j, i);
      ReverseStep(l16, l4, ll16[..], ll4[..], col, ti, xs, j);
      xs := xs + [j];
      i := j;
      j := tmp;
      if i == origPtr { break; }
      NextIsFresh(col, ti, origPtr, xs);
    }
    SmallDone(ll16[..], ll4[..], col, ti, origPtr, xs);
  }

  lemma SmallStep(l16: seq<int>, l4: seq<Byte>, m16: seq<int>, m4: seq<Byte>, col: seq<Byte>, i: int)
    requires SmallBuilding(l16, l4, col, i) && i < |col|
    requires |m16| == |l16| && |m4| == |l4|
    requires GetLL(m16, m4, i) == UpPlace(col, i)
    requires forall k | 0 <= k < |l16| && k != i :: m16[k] == l16[k]
    requires forall k | 0 <= k < 2 * |l4| && k != i :: GetLL4(m4, k) == GetLL4(l4, k)
    ensures SmallBuilding(m16, m4, col, i + 1)
  {
    hide UpPlace, GetLL4;
  }

  lemma ReverseStep(l16: seq<int>, l4: seq<Byte>, m16: seq<int>, m4: seq<Byte>, col: seq<Byte>, ti: seq<int>,
                    xs: seq<int>, j: int)
    requires Reversing(l16, l4, col, ti, xs) && 0 <= j < |col|
    requires |m16| == |l16| && |m4| == |l4|
    requires GetLL(m16, m4, j) == ti[j]
    requires forall k | 0 <= k < |l16| && k != j :: m16[k] == l16[k]
    requires forall k | 0 <= k < 2 * |l4| && k != j :: GetLL4(m4, k) == GetLL4(l4, k)
    ensures Reversing(m16, m4, col, ti, xs + [j])
  {
    hide UpPlace, GetLL4;
    assert (xs + [j])[1..] == xs[1..] + [j];
  }

  lemma SmallDone(ll16: seq<int>, ll4: seq<Byte>, col: seq<Byte>, ti: seq<int>, o: int, xs: seq<int>)
    requires IsInverse(col, ti) && Trail(col, o, xs) && |xs| >= 2 && xs[|xs| - 1] == o
    requires Reversing(ll16, ll4, col, ti, xs)
    ensures IsSmallVector(ll16, ll4, ti, o)
  {
    hide UpPlace, GetLL;
    forall m: nat ensures GetLL(ll16, ll4, Walk(ti, o, m)) == Walk(ti, o, m + 1) {
      CycleReversed(col, ti, o, xs, m);
    }
  }

  // ---- reading one byte ----

  /** Binary search for the bucket of a position: the byte of row ti[indx], which SMALL does not store. */
  method IndexIntoF(indx: int, cftab: array<int>, ghost col: seq<Byte>) returns (nb: int)
    requires IsCftab(cftab[..], col) && 0 <= indx < |col|
    ensures 0 <= nb < 256 && nb == col[Inverse(col)[indx]]
  {
    hide Start, UpPlace, IsInverse;
    StartZero(col);
    StartTotal(col, 256);
    var na := 256;
    nb := 0;
    while na - nb != 1
      invariant 0 <= nb < na <= 256
      invariant cftab[nb] <= indx < cftab[na]
      decreases na - nb
    {
      var mid := (nb + na) / 2;
      if indx >= cftab[mid] { nb := mid; } else { na := mid; }
    }
    RowInBucket(col, indx, nb);
  }

  lemma RowInBucket(col: seq<Byte>, k: int, c: int)
    requires 0 <= k < |col| && 0 <= c < 256 && Start(col, c) <= k < Start(col, c + 1)
    ensures c == col[Inverse(col)[k]]
  {
    hide Start, UpPlace;
    var i := Inverse(col)[k];
    PlacesInBucket(col, i);
    BucketOrder(col, col[i], k, c, k);
  }

  /** The bytes the decoder fetches, one after the other; from byte |col| on the walk goes round again. */
  ghost function Fed(col: seq<Byte>, o: int, m: nat): (c: Byte)
    requires 0 <= o < |col|
  {
    Decoded(col, Inverse(col), o, m + 1)[m]
  }

  /** The position the FAST decoder holds after m bytes: one step ahead of the SMALL one. */
  ghost predicate FastAt(tPos: int, col: seq<Byte>, o: int, m: nat)
    requires 0 <= o < |col|
  {
    tPos == Walk(Inverse(col), o, m + 1)
  }

  ghost predicate SmallAt(tPos: int, col: seq<Byte>, o: int, m: nat)
    requires 0 <= o < |col|
  {
    tPos == Walk(Inverse(col), o, m)
  }

  /** tPos before the first byte. */
  method StartFast(tt: array<int>, origPtr: int, ghost col: seq<Byte>) returns (tPos: int)
    requires 0 <= origPtr < |col| && IsFastVector(tt[..], col, Inverse(col))
    ensures FastAt(tPos, col, origPtr, 0)
  {
    hide UpPlace;
    tPos := tt[origPtr] / 256;
    assert Walk(Inverse(col), origPtr, 0) == origPtr;
  }

  lemma StartSmall(origPtr: int, col: seq<Byte>)
    requires 0 <= origPtr < |col|
    ensures SmallAt(origPtr, col, origPtr, 0)
  {
  }

  /** BZ_GET_FAST: the range check never fires, and the byte is the next one of the walk. */
  method GetFast(tt: array<int>, tPos: int, blockSize100k: int, ghost col: seq<Byte>, ghost o: int, ghost m: nat)
    returns (corrupt: bool, c: Byte, tPos': int)
    requires 0 <= o < |col| <= 100000 * blockSize100k && IsFastVector(tt[..], col, Inverse(col))
    requires FastAt(tPos, col, o, m)
    ensures !corrupt && c == Fed(col, o, m) && FastAt(tPos', col, o, m + 1)
  {
    hide UpPlace;
    corrupt, c, tPos' := false, 0, tPos;
    if tPos >= 100000 * blockSize100k { return true, c, tPos'; }
    var t := tt[tPos];
    c := t % 256;
    tPos' := t / 256;
  }

  /** BZ_GET_SMALL: the same byte, found by searching for its bucket. */
  method GetSmall(ll16: array<int>, ll4: array<Byte>, cftab: array<int>, tPos: int, blockSize100k: int,
                  ghost col: seq<Byte>, ghost o: int, ghost m: nat)
    returns (corrupt: bool, c: Byte, tPos': int)
    requires 0 <= o < |col| <= 100000 * blockSize100k
    requires IsSmallVector(ll16[..], ll4[..], Inverse(col), o) && IsCftab(cftab[..], col)
    requires SmallAt(tPos, col, o, m)
    ensures !corrupt && c == Fed(col, o, m) && SmallAt(tPos', col, o, m + 1)
  {
    hide UpPlace, Start, GetLL;
    corrupt, c, tPos' := false, 0, tPos;
    if tPos >= 100000 * blockSize100k { return true, c, tPos'; }
    var nb := IndexIntoF(tPos, cftab, col);
    c := nb;
    assert Walk(Inverse(col), o, m + 1) == Inverse(col)[tPos];
    tPos' := GetLL(ll16[..], ll4[..], tPos);
  }
}
