/** The decoder's move-to-front list: 16 segments of 16 entries that slide down through an array of 4096, so
    that moving an entry to the front touches one segment and one entry of each segment before it. */
module MtfSegments {
  import opened Permutations
  import opened MoveToFront

  const MTFA_SIZE := 4096
  const MTFL_SIZE := 16
  const SEGMENTS := 256 / MTFL_SIZE

  /** The segments are in place, in order and disjoint. */
  ghost predicate InPlace(base: seq<int>) {
    && |base| == SEGMENTS
    && 0 <= base[0] && base[SEGMENTS - 1] + MTFL_SIZE <= MTFA_SIZE
    && forall s | 0 <= s < SEGMENTS - 1 :: base[s] + MTFL_SIZE <= base[s + 1]
  }

  lemma {:induction false} Ordered(base: seq<int>, s: int, t: int)
    requires InPlace(base) && 0 <= s <= t < SEGMENTS
    ensures 0 <= base[s] && base[t] + MTFL_SIZE <= MTFA_SIZE
    ensures base[s] + MTFL_SIZE * (t - s) <= base[t]
    decreases t - s, t, SEGMENTS - s
  {
    if s < t {
      Ordered(base, s, t - 1);
      OrderedTop(base, t);
    } else {
      OrderedTop(base, t);
      OrderedBottom(base, s);
    }
  }

  lemma {:induction false} OrderedTop(base: seq<int>, t: int)
    requires InPlace(base) && 0 <= t < SEGMENTS
    ensures base[t] + MTFL_SIZE <= MTFA_SIZE
    decreases SEGMENTS - t
  {
    if t < SEGMENTS - 1 { OrderedTop(base, t + 1); }
  }

  lemma {:induction false} OrderedBottom(base: seq<int>, s: int)
    requires InPlace(base) && 0 <= s < SEGMENTS
    ensures 0 <= base[s]
  {
    if s > 0 { OrderedBottom(base, s - 1); }
  }

  /** Where entry k of the list is kept. */
  ghost function Cell(base: seq<int>, k: int): (c: int)
    requires |base| == SEGMENTS && 0 <= k < 256
  {
    base[k / MTFL_SIZE] + k % MTFL_SIZE
  }

  /** Cells keep the order of the entries, so no two entries share one. */
  lemma CellsOrdered(base: seq<int>, k: int, k': int)
    requires InPlace(base) && 0 <= k <= k' < 256
    ensures 0 <= Cell(base, k) && Cell(base, k) + (k' - k) <= Cell(base, k') < MTFA_SIZE
  {
    Ordered(base, k / MTFL_SIZE, k' / MTFL_SIZE);
  }

  /** The array and the bases represent the list. */
  ghost predicate Represents(mtfa: seq<Byte>, base: seq<int>, list: seq<Byte>) {
    && |mtfa| == MTFA_SIZE && |list| == 256 && InPlace(base)
    && forall k | 0 <= k < 256 :: 0 <= Cell(base, k) < MTFA_SIZE && mtfa[Cell(base, k)] == list[k]
  }

  ghost function Identity(): (r: seq<Byte>)
    ensures |r| == 256 && forall k | 0 <= k < 256 :: r[k] == k
  {
    seq(256, k requires 0 <= k < 256 => k)
  }

  /** The list 0, 1, ..., 255, packed against the end of the array. */
  method InitMtf(mtfa: array<Byte>, mtfbase: array<int>)
    requires mtfa.Length == MTFA_SIZE && mtfbase.Length == SEGMENTS && mtfa as object != mtfbase
    modifies mtfa, mtfbase
    ensures Represents(mtfa[..], mtfbase[..], Identity())
    ensures mtfbase[0] > 0
  {
    var kk := MTFA_SIZE - 1;
    var ii := SEGMENTS - 1;
    while ii >= 0
      invariant -1 <= ii <= SEGMENTS - 1 && kk == 3839 + MTFL_SIZE * (ii + 1)
      invariant forall s | ii < s < SEGMENTS :: mtfbase[s] == 3840 + MTFL_SIZE * s
      invariant forall c | kk < c < MTFA_SIZE :: mtfa[c] == c - 3840
    {
      var jj := MTFL_SIZE - 1;
      while jj >= 0
        invariant -1 <= jj < MTFL_SIZE && kk == 3839 + MTFL_SIZE * ii + jj + 1
        invariant forall s | ii < s < SEGMENTS :: mtfbase[s] == 3840 + MTFL_SIZE * s
        invariant forall c | kk < c < MTFA_SIZE :: mtfa[c] == c - 3840
      {
        mtfa[kk] := ii * MTFL_SIZE + jj;
        kk := kk - 1;
        jj := jj - 1;
      }
      mtfbase[ii] := kk + 1;
      ii := ii - 1;
    }
    assert forall k | 0 <= k < 256 :: Cell(mtfbase[..], k) == 3840 + k;
  }

  /** During the repacking: entries below m are still in their old cells, the others in their new ones. */
  ghost predicate Repacking(mtfa: seq<Byte>, base0: seq<int>, list: seq<Byte>, m: int) {
    && |mtfa| == MTFA_SIZE && |list| == 256 && InPlace(base0) && 0 <= m <= 256
    && (forall k | 0 <= k < m :: 0 <= Cell(base0, k) < MTFA_SIZE && mtfa[Cell(base0, k)] == list[k])
    && (forall k | m <= k < 256 :: mtfa[3840 + k] == list[k])
  }

  /** Moving entry m - 1 overwrites no entry that is still to be moved. */
  lemma RepackStep(mtfa: seq<Byte>, base0: seq<int>, list: seq<Byte>, m: int)
    requires Repacking(mtfa, base0, list, m) && m > 0
    ensures 0 <= Cell(base0, m - 1) < MTFA_SIZE
    ensures Repacking(mtfa[3839 + m := mtfa[Cell(base0, m - 1)]], base0, list, m - 1)
  {
    hide Cell;
    CellsOrdered(base0, m - 1, 255);
    forall k | 0 <= k < m - 1 ensures Cell(base0, k) < 3839 + m { CellsOrdered(base0, k, m - 1); }
  }

  /** When segment 0 has reached the bottom, all segments are moved back up; the list does not change. */
  method Repack(mtfa: array<Byte>, mtfbase: array<int>, ghost list: seq<Byte>)
    requires mtfa.Length == MTFA_SIZE && mtfbase.Length == SEGMENTS && mtfa as object != mtfbase
    requires Represents(mtfa[..], mtfbase[..], list)
    modifies mtfa, mtfbase
    ensures Represents(mtfa[..], mtfbase[..], list)
    ensures mtfbase[0] > 0
  {
    ghost var base0 := mtfbase[..];
    var kk := MTFA_SIZE - 1;
    var ii := SEGMENTS - 1;
    while ii >= 0
      invariant -1 <= ii <= SEGMENTS - 1 && kk == 3839 + MTFL_SIZE * (ii + 1)
      invariant forall s | ii < s < SEGMENTS :: mtfbase[s] == 3840 + MTFL_SIZE * s
      invariant forall s | 0 <= s <= ii :: mtfbase[s] == base0[s]
      invariant Repacking(mtfa[..], base0, list, MTFL_SIZE * (ii + 1))
    {
      var jj := MTFL_SIZE - 1;
      while jj >= 0
        invariant -1 <= jj < MTFL_SIZE && kk == 3839 + MTFL_SIZE * ii + jj + 1
        invariant forall s | ii < s < SEGMENTS :: mtfbase[s] == 3840 + MTFL_SIZE * s
        invariant forall s | 0 <= s <= ii :: mtfbase[s] == base0[s]
        invariant Repacking(mtfa[..], base0, list, MTFL_SIZE * ii + jj + 1)
      {
        RepackStep(mtfa[..], base0, list, MTFL_SIZE * ii + jj + 1);
        ghost var m0 := mtfa[..];
        mtfa[kk] := mtfa[mtfbase[ii] + jj];
        assert mtfa[..] == m0[kk := m0[mtfbase[ii] + jj]];
        kk := kk - 1;
        jj := jj - 1;
      }
      mtfbase[ii] := kk + 1;
      ii := ii - 1;
    }
    Repacked(mtfa[..], mtfbase[..], base0, list);
  }

  lemma Repacked(mtfa: seq<Byte>, base: seq<int>, base0: seq<int>, list: seq<Byte>)
    requires Repacking(mtfa, base0, list, 0)
    requires |base| == SEGMENTS && forall s | 0 <= s < SEGMENTS :: base[s] == 3840 + MTFL_SIZE * s
    ensures Represents(mtfa, base, list)
  {
    assert forall k | 0 <= k < 256 :: Cell(base, k) == 3840 + k;
  }

  // ---- taking an entry out of a segment ----

  /** m is m0 with every cell from z + 1 to hi holding what the cell below it held. */
  ghost predicate Shifted(m0: seq<Byte>, m: seq<Byte>, z: int, hi: int) {
    && |m| == |m0| == MTFA_SIZE && 0 <= z <= hi < MTFA_SIZE
    && forall c {:trigger m[c]} | 0 <= c < MTFA_SIZE :: m[c] == if z < c <= hi then m0[c - 1] else m0[c]
  }

  lemma ShiftStep(m0: seq<Byte>, m: seq<Byte>, z: int, hi: int)
    requires Shifted(m0, m, z, hi) && z > 0
    ensures Shifted(m0, m[z := m[z - 1]], z - 1, hi)
  {
    var m' := m[z := m[z - 1]];
    assert m'[z] == m[z - 1] == m0[z - 1];
  }

  /** Within the first segment that is all there is to do. */
  lemma FirstSegmentMoved(m0: seq<Byte>, m: seq<Byte>, base: seq<int>, list: seq<Byte>, nn: int)
    requires Represents(m0, base, list) && 0 <= nn < MTFL_SIZE
    requires Shifted(m0, m, base[0], base[0] + nn)
    ensures Represents(m[base[0] := list[nn]], base, ToFront(list, nn))
  {
    var m' := m[base[0] := list[nn]];
    OrderedBottom(base, 0);
    forall k | 0 <= k < 256 ensures 0 <= Cell(base, k) < MTFA_SIZE && m'[Cell(base, k)] == ToFront(list, nn)[k] {
      CellsOrdered(base, 0, k);
      if k >= MTFL_SIZE { CellsOrdered(base, nn, k); }
    }
  }

  // ---- sliding the segments before it ----

  /** The bases once every segment before lno has slid down by one. */
  ghost function Slid(base0: seq<int>, lno: int): (base: seq<int>)
    requires |base0| == SEGMENTS
    ensures |base| == SEGMENTS
    ensures forall s | 0 <= s < SEGMENTS :: base[s] == if s < lno then base0[s] - 1 else base0[s]
  {
    seq(SEGMENTS, s requires 0 <= s < SEGMENTS => if s < lno then base0[s] - 1 else base0[s])
  }

  lemma SlidInPlace(base0: seq<int>, lno: int)
    requires InPlace(base0) && base0[0] > 0 && 0 <= lno < SEGMENTS
    ensures InPlace(Slid(base0, lno))
  {
  }

  /** While the segments slide, l of them are still to do: entries above 16 l are where they will be, entries
      below it where they were. */
  ghost predicate Sliding(m: seq<Byte>, base0: seq<int>, list: seq<Byte>, nn: int, l: int) {
    && |m| == MTFA_SIZE && |list| == 256 && InPlace(base0) && base0[0] > 0 && 0 <= nn < 256
    && 0 <= l <= nn / MTFL_SIZE
    && (forall k | 0 <= k < MTFL_SIZE * l :: 0 <= Cell(base0, k) < MTFA_SIZE && m[Cell(base0, k)] == list[k])
    && (forall k | MTFL_SIZE * l < k < 256 ::
          0 <= Cell(Slid(base0, nn / MTFL_SIZE), k) < MTFA_SIZE
          && m[Cell(Slid(base0, nn / MTFL_SIZE), k)] == ToFront(list, nn)[k])
  }

  lemma SlidingStart(m0: seq<Byte>, m: seq<Byte>, base0: seq<int>, list: seq<Byte>, nn: int)
    requires Represents(m0, base0, list) && base0[0] > 0 && 0 <= nn < 256
    requires var lo := base0[nn / MTFL_SIZE]; Shifted(m0, m, lo, lo + nn % MTFL_SIZE)
    ensures Sliding(m, base0, list, nn, nn / MTFL_SIZE)
  {
    var lno := nn / MTFL_SIZE;
    var base := Slid(base0, lno);
    SlidInPlace(base0, lno);
    forall k | 0 <= k < MTFL_SIZE * lno ensures 0 <= Cell(base0, k) < MTFA_SIZE && m[Cell(base0, k)] == list[k] {
      CellsOrdered(base0, k, MTFL_SIZE * lno);
    }
    forall k | MTFL_SIZE * lno < k < 256
      ensures 0 <= Cell(base, k) < MTFA_SIZE && m[Cell(base, k)] == ToFront(list, nn)[k] {
      EntrySlid(m0, m, base0, list, nn, k);
    }
  }

  lemma EntrySlid(m0: seq<Byte>, m: seq<Byte>, base0: seq<int>, list: seq<Byte>, nn: int, k: int)
    requires Represents(m0, base0, list) && base0[0] > 0 && 0 <= nn < 256
    requires var lo := base0[nn / MTFL_SIZE]; Shifted(m0, m, lo, lo + nn % MTFL_SIZE)
    requires MTFL_SIZE * (nn / MTFL_SIZE) < k < 256
    ensures var base := Slid(base0, nn / MTFL_SIZE);
            0 <= Cell(base, k) < MTFA_SIZE && m[Cell(base, k)] == ToFront(list, nn)[k]
  {
    hide ToFront, Slid;
    var lno := nn / MTFL_SIZE;
    var base := Slid(base0, lno);
    SlidInPlace(base0, lno);
    CellsOrdered(base, k, 255);
    assert Cell(base, k) == Cell(base0, k);
    if k > nn { CellsOrdered(base0, nn, k); }
  }

  lemma SegmentEnds(base: seq<int>, l: int)
    requires |base| == SEGMENTS && 0 <= l < SEGMENTS
    ensures Cell(base, MTFL_SIZE * l) == base[l]
    ensures Cell(base, MTFL_SIZE * l + MTFL_SIZE - 1) == base[l] + MTFL_SIZE - 1
  {
  }

  /** A slid segment keeps its entries where they were: each is now counted one further. */
  lemma SlidCell(base0: seq<int>, lno: int, k: int)
    requires |base0| == SEGMENTS && 0 <= k < MTFL_SIZE * lno <= 256 && k % MTFL_SIZE != 0
    ensures Cell(Slid(base0, lno), k) == Cell(base0, k - 1)
  {
  }

  /** The entry that moves from the end of one segment to the front of the next disturbs no other. */
  lemma SlidingStep(m: seq<Byte>, base0: seq<int>, list: seq<Byte>, nn: int, l: int)
    requires Sliding(m, base0, list, nn, l) && l > 0
    ensures var c, c' := Slid(base0, nn / MTFL_SIZE)[l], base0[l - 1] + MTFL_SIZE - 1;
      0 <= c < MTFA_SIZE && 0 <= c' < MTFA_SIZE && Sliding(m[c := m[c']], base0, list, nn, l - 1)
  {
    hide Cell, Slid;
    var lno, at := nn / MTFL_SIZE, MTFL_SIZE * l;
    var base := Slid(base0, lno);
    SlidInPlace(base0, lno);
    SegmentEnds(base, l);
    SegmentEnds(base0, l - 1);
    SegmentEnds(base0, l);
    var c, c' := base[l], base0[l - 1] + MTFL_SIZE - 1;
    CellsOrdered(base, at, at);
    CellsOrdered(base0, at - 1, at);
    assert c == Cell(base, at) && c' == Cell(base0, at - 1);
    var m' := m[c := m[c']];
    forall k | 0 <= k < at ensures 0 <= Cell(base0, k) < MTFA_SIZE && m'[Cell(base0, k)] == list[k] {
      CellsOrdered(base0, k, at - 1);
    }
    forall k | at - MTFL_SIZE < k < 256
      ensures 0 <= Cell(base, k) < MTFA_SIZE && m'[Cell(base, k)] == ToFront(list, nn)[k]
    {
      SlidEntry(m, base0, list, nn, l, k);
    }
  }

  lemma SlidEntry(m: seq<Byte>, base0: seq<int>, list: seq<Byte>, nn: int, l: int, k: int)
    requires Sliding(m, base0, list, nn, l) && l > 0
    requires MTFL_SIZE * (l - 1) < k < 256
    ensures var base := Slid(base0, nn / MTFL_SIZE);
      && 0 <= base[l] < MTFA_SIZE && 0 <= base0[l - 1] + MTFL_SIZE - 1 < MTFA_SIZE && 0 <= Cell(base, k) < MTFA_SIZE
      && m[base[l] := m[base0[l - 1] + MTFL_SIZE - 1]][Cell(base, k)] == ToFront(list, nn)[k]
  {
    hide Cell, Slid, ToFront;
    var lno, at := nn / MTFL_SIZE, MTFL_SIZE * l;
    var base := Slid(base0, lno);
    SlidInPlace(base0, lno);
    SegmentEnds(base, l);
    SegmentEnds(base0, l - 1);
    CellsOrdered(base, at, at);
    CellsOrdered(base0, at - 1, at - 1);
    if k < at {
      SlidCell(base0, lno, k);
      CellsOrdered(base, k, at);
    } else {
      CellsOrdered(base, at, k);
    }
  }

  lemma SlidingEnd(m: seq<Byte>, base0: seq<int>, list: seq<Byte>, nn: int)
    requires Sliding(m, base0, list, nn, 0) && nn >= MTFL_SIZE
    ensures var base := Slid(base0, nn / MTFL_SIZE);
      0 <= base[0] < MTFA_SIZE && Represents(m[base[0] := list[nn]], base, ToFront(list, nn))
  {
    var base := Slid(base0, nn / MTFL_SIZE);
    SlidInPlace(base0, nn / MTFL_SIZE);
    CellsOrdered(base, 0, 0);
    forall k | 0 < k < 256 ensures Cell(base, k) > base[0] { CellsOrdered(base, 0, k); }
  }

  /** An entry of the first segment: those before it move up by one, four at a time as long as there are four. */
  method MoveInFirst(mtfa: array<Byte>, mtfbase: array<int>, nn0: int, ghost list: seq<Byte>) returns (uc: Byte)
    requires mtfa.Length == MTFA_SIZE && mtfbase.Length == SEGMENTS && mtfa as object != mtfbase
    requires Represents(mtfa[..], mtfbase[..], list) && mtfbase[0] > 0
    requires 0 <= nn0 < MTFL_SIZE
    modifies mtfa, mtfbase
    ensures uc == list[nn0]
    ensures Represents(mtfa[..], mtfbase[..], ToFront(list, nn0)) && mtfbase[0] > 0
  {
    hide InPlace, Represents, Sliding, Shifted, ToFront;
    ghost var m0, base0 := mtfa[..], mtfbase[..];
    EntryCell(m0, base0, list, nn0);
    var nn := nn0;
    var pp := mtfbase[0];
    uc := mtfa[pp + nn];
    ShiftedNone(m0, pp + nn);
    while nn > 3
      invariant 0 <= nn <= nn0 && Shifted(m0, mtfa[..], pp + nn, pp + nn0) && mtfbase[..] == base0
    {
      var z := pp + nn;
      ShiftFour(m0, mtfa[..], z, pp + nn0);
      ghost var m := mtfa[..];
      mtfa[z] := mtfa[z - 1];
      mtfa[z - 1] := mtfa[z - 2];
      mtfa[z - 2] := mtfa[z - 3];
      mtfa[z - 3] := mtfa[z - 4];
      assert mtfa[..] == m[z := m[z - 1]][z - 1 := m[z - 2]][z - 2 := m[z - 3]][z - 3 := m[z - 4]];
      nn := nn - 4;
    }
    while nn > 0
      invariant 0 <= nn <= nn0 && Shifted(m0, mtfa[..], pp + nn, pp + nn0) && mtfbase[..] == base0
    {
      ShiftStep(m0, mtfa[..], pp + nn, pp + nn0);
      ghost var m := mtfa[..];
      mtfa[pp + nn] := mtfa[pp + nn - 1];
      assert mtfa[..] == m[pp + nn := m[pp + nn - 1]];
      nn := nn - 1;
    }
    FirstSegmentMoved(m0, mtfa[..], base0, list, nn0);
    ghost var m := mtfa[..];
    mtfa[pp] := uc;
    assert mtfa[..] == m[pp := uc];
  }

  /** An entry of a later segment: every segment before it slides down by one. */
  method MoveAcross(mtfa: array<Byte>, mtfbase: array<int>, nn0: int, ghost list: seq<Byte>) returns (uc: Byte)
    requires mtfa.Length == MTFA_SIZE && mtfbase.Length == SEGMENTS && mtfa as object != mtfbase
    requires Represents(mtfa[..], mtfbase[..], list) && mtfbase[0] > 0
    requires MTFL_SIZE <= nn0 < 256
    modifies mtfa, mtfbase
    ensures uc == list[nn0]
    ensures Represents(mtfa[..], mtfbase[..], ToFront(list, nn0)) && mtfbase[0] > 0
  {
    hide InPlace, Represents, Sliding, Shifted, ToFront;
    ghost var m0, base0 := mtfa[..], mtfbase[..];
    EntryCell(m0, base0, list, nn0);
    var nn := nn0;
    var lno, off := nn / MTFL_SIZE, nn % MTFL_SIZE;
    var pp := mtfbase[lno] + off;
    uc := mtfa[pp];
    ShiftedNone(m0, pp);
    while pp > mtfbase[lno]
      invariant base0[lno] <= pp <= base0[lno] + off && Shifted(m0, mtfa[..], pp, base0[lno] + off)
                && mtfbase[..] == base0
    {
      ShiftStep(m0, mtfa[..], pp, base0[lno] + off);
      ghost var m := mtfa[..];
      mtfa[pp] := mtfa[pp - 1];
      assert mtfa[..] == m[pp := m[pp - 1]];
      pp := pp - 1;
    }
    SlidingStart(m0, mtfa[..], base0, list, nn0);
    mtfbase[lno] := mtfbase[lno] + 1;
    while lno > 0
      invariant 0 <= lno <= nn0 / MTFL_SIZE && Sliding(mtfa[..], base0, list, nn0, lno)
      invariant SlidingBases(mtfbase[..], base0, nn0 / MTFL_SIZE, lno)
    {
      SlidingStep(mtfa[..], base0, list, nn0, lno);
      ghost var m := mtfa[..];
      mtfbase[lno] := mtfbase[lno] - 1;
      mtfa[mtfbase[lno]] := mtfa[mtfbase[lno - 1] + MTFL_SIZE - 1];
      assert mtfa[..] == m[mtfbase[lno] := m[mtfbase[lno - 1] + MTFL_SIZE - 1]];
      lno := lno - 1;
    }
    SlidingEnd(mtfa[..], base0, list, nn0);
    mtfbase[0] := mtfbase[0] - 1;
    assert mtfbase[..] == Slid(base0, nn0 / MTFL_SIZE);
    ghost var m := mtfa[..];
    mtfa[mtfbase[0]] := uc;
    assert mtfa[..] == m[mtfbase[0] := uc];
    if mtfbase[0] == 0 {
      Repack(mtfa, mtfbase, ToFront(list, nn0));
    }
  }

  /** Looks up entry nn and moves it to the front. */
  method MoveToFrontAt(mtfa: array<Byte>, mtfbase: array<int>, nn0: int, ghost list: seq<Byte>) returns (uc: Byte)
    requires mtfa.Length == MTFA_SIZE && mtfbase.Length == SEGMENTS && mtfa as object != mtfbase
    requires Represents(mtfa[..], mtfbase[..], list) && mtfbase[0] > 0
    requires 0 <= nn0 < 256
    modifies mtfa, mtfbase
    ensures uc == list[nn0]
    ensures Represents(mtfa[..], mtfbase[..], ToFront(list, nn0)) && mtfbase[0] > 0
  {
    hide InPlace, Represents, Sliding, Shifted, ToFront;
    if nn0 < MTFL_SIZE {
      uc := MoveInFirst(mtfa, mtfbase, nn0, list);
    } else {
      uc := MoveAcross(mtfa, mtfbase, nn0, list);
    }
  }

  /** The bases while segment l is next to slide. */
  ghost predicate SlidingBases(base: seq<int>, base0: seq<int>, lno: int, l: int) {
    && |base| == SEGMENTS == |base0|
    && forall s | 0 <= s < SEGMENTS ::
         base[s] == if s == lno == l then base0[s] + 1 else if l < s < lno then base0[s] - 1 else base0[s]
  }

  lemma EntryCell(mtfa: seq<Byte>, base: seq<int>, list: seq<Byte>, nn: int)
    requires Represents(mtfa, base, list) && 0 <= nn < 256
    ensures |mtfa| == MTFA_SIZE && |base| == SEGMENTS && |list| == 256
    ensures 0 <= base[nn / MTFL_SIZE] && base[nn / MTFL_SIZE] + nn % MTFL_SIZE < MTFA_SIZE
    ensures mtfa[base[nn / MTFL_SIZE] + nn % MTFL_SIZE] == list[nn]
  {
    Ordered(base, nn / MTFL_SIZE, nn / MTFL_SIZE);
    assert mtfa[Cell(base, nn)] == list[nn];
  }

  lemma ShiftedNone(m: seq<Byte>, z: int)
    requires |m| == MTFA_SIZE && 0 <= z < MTFA_SIZE
    ensures Shifted(m, m, z, z)
  {
  }

  lemma ShiftFour(m0: seq<Byte>, m: seq<Byte>, z: int, hi: int)
    requires Shifted(m0, m, z, hi) && z >= 4
    ensures Shifted(m0, m[z := m[z - 1]][z - 1 := m[z - 2]][z - 2 := m[z - 3]][z - 3 := m[z - 4]], z - 4, hi)
  {
    var m1 := m[z := m[z - 1]];
    ShiftStep(m0, m, z, hi);
    var m2 := m1[z - 1 := m1[z - 2]];
    ShiftStep(m0, m1, z - 1, hi);
    var m3 := m2[z - 2 := m2[z - 3]];
    ShiftStep(m0, m2, z - 2, hi);
    ShiftStep(m0, m3, z - 3, hi);
    assert m1[z - 2] == m[z - 2] && m2[z - 3] == m[z - 3] && m3[z - 4] == m[z - 4];
  }
}
