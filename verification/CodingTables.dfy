/** The tables sendMTFValues starts from: the alphabet, cut into consecutive parts of about equal frequency. */
module CodingTables {
  import opened BlockFormat
  import opened Sums

  const BZ_LESSER_ICOST := 0
  const BZ_GREATER_ICOST := 15

  /** Arrays for the tables, all different. */
  ghost predicate Rows(rows: seq<array<int>>, n: int, alphaSize: int) {
    && |rows| == n && (forall t | 0 <= t < n :: rows[t].Length == alphaSize)
    && forall t, u | 0 <= t < u < n :: rows[t] != rows[u]
  }

  /** New arrays. */
  method NewRows(n: int, alphaSize: int) returns (rows: seq<array<int>>)
    requires n >= 0 && alphaSize >= 0
    ensures Rows(rows, n, alphaSize) && fresh(rows)
  {
    rows := [];
    for t := 0 to n
      invariant Rows(rows, t, alphaSize) && fresh(rows)
    {
      var row := new int[alphaSize];
      rows := rows + [row];
    }
  }

  /** How many tables are worth their space. */
  function GroupsFor(nMTF: int): (nGroups: int)
    ensures 2 <= nGroups <= BZ_N_GROUPS
  {
    if nMTF < 200 then 2 else if nMTF < 600 then 3 else if nMTF < 1200 then 4 else if nMTF < 2400 then 5 else 6
  }

  // ---- frequencies ----

  /** How often each symbol occurs. */
  ghost function Counts(syms: seq<int>, n: nat): (r: seq<int>)
    ensures |r| == n && forall v | 0 <= v < n :: r[v] == multiset(syms)[v]
  {
    seq(n, v => multiset(syms)[v])
  }

  /** All symbols together are as many as there are. */
  lemma {:induction false} CountsTotal(syms: seq<int>, n: nat)
    requires forall i | 0 <= i < |syms| :: 0 <= syms[i] < n
    ensures Sum(Counts(syms, n)) == |syms|
  {
    if syms == [] {
      SumZero(Counts(syms, n));
    } else {
      var v := syms[|syms| - 1];
      var init := syms[..|syms| - 1];
      CountsTotal(init, n);
      assert syms == init + [v];
      assert Counts(syms, n) == Counts(init, n)[v := Counts(init, n)[v] + 1];
      SumUpdate(Counts(init, n), v, Counts(init, n)[v] + 1);
    }
  }

  // ---- the parts ----

  /** Which table each symbol is cheap in: the parts go to the tables from the last one down. */
  ghost predicate Parted(owner: seq<int>, gs: int, nPart: int, nGroups: int) {
    && |owner| == gs && (forall v | 0 <= v < gs :: nPart <= owner[v] < nGroups)
    && forall v, w | 0 <= v < w < gs :: owner[v] >= owner[w]
  }

  /** A symbol costs little in the table that owns it, much in every other one. */
  ghost predicate Costs(row: seq<int>, t: int, owner: seq<int>) {
    forall v | 0 <= v < |row| ::
      row[v] == if v < |owner| && owner[v] == t then BZ_LESSER_ICOST else BZ_GREATER_ICOST
  }

  /** The frequencies of the symbols from gs up to end. */
  ghost function PartSum(freq: seq<int>, gs: int, end: int): int {
    if 0 <= gs <= end <= |freq| then Sum(freq[..end]) - Sum(freq[..gs]) else 0
  }

  /** From gs on, e is where the frequencies first reach the target, or the last symbol. */
  ghost predicate Reaches(freq: seq<int>, gs: int, target: int, e: int) {
    && 0 <= gs <= |freq| && gs - 1 <= e < |freq|
    && (e == |freq| - 1 || PartSum(freq, gs, e + 1) >= target)
    && forall end | gs <= end <= e :: PartSum(freq, gs, end) < target
  }

  /** The part that starts at gs, with nPart of nGroups parts still to be formed, ends at ge: where an even share of
      what is left is reached, but every second of the inner parts ends one symbol earlier, if it has two. */
  ghost predicate IsPart(freq: seq<int>, gs: int, nPart: int, nGroups: int, ge: int) {
    && 0 < nPart <= nGroups && 0 <= gs <= |freq|
    && var target := (Sum(freq) - Sum(freq[..gs])) / nPart;
    && exists e :: Reaches(freq, gs, target, e)
         && ge == if e > gs && nPart != nGroups && nPart != 1 && (nGroups - nPart) % 2 == 1 then e - 1 else e
  }

  lemma PartIs(freq: seq<int>, gs: int, nPart: int, nGroups: int, e: int, ge: int)
    requires 0 < nPart <= nGroups && 0 <= gs <= |freq| && Reaches(freq, gs, (Sum(freq) - Sum(freq[..gs])) / nPart, e)
    requires ge == if e > gs && nPart != nGroups && nPart != 1 && (nGroups - nPart) % 2 == 1 then e - 1 else e
    ensures IsPart(freq, gs, nPart, nGroups, ge)
  {
    hide Sum, Reaches;
  }

  lemma ReachesAt(freq: seq<int>, gs: int, target: int, e: int)
    requires 0 <= gs <= |freq| && gs - 1 <= e < |freq|
    requires e == |freq| - 1 || PartSum(freq, gs, e + 1) >= target
    requires forall end | gs <= end <= e :: PartSum(freq, gs, end) < target
    ensures Reaches(freq, gs, target, e)
  {
    hide PartSum;
  }

  /** The first parts lie between the bounds. */
  ghost predicate Divided(freq: seq<int>, bounds: seq<int>, nGroups: int) {
    && 0 < |bounds| <= nGroups + 1 && bounds[0] == 0
    && forall p | 0 <= p < |bounds| - 1 :: IsPart(freq, bounds[p], nGroups - p, nGroups, bounds[p + 1] - 1)
  }

  /** Part number p belongs to the p-th table from the end. */
  ghost predicate Owned(owner: seq<int>, bounds: seq<int>, nGroups: int) {
    && |bounds| > 0 && |owner| == bounds[|bounds| - 1] && (forall p | 0 <= p < |bounds| :: bounds[p] <= |owner|)
    && forall p, v | 0 <= p < |bounds| - 1 && 0 <= v < |owner| && bounds[p] <= v < bounds[p + 1] ::
         owner[v] == nGroups - 1 - p
  }

  lemma NothingOwned(freq: seq<int>, nGroups: int)
    requires nGroups > 0
    ensures Owned([], [0], nGroups) && Divided(freq, [0], nGroups)
  {
  }

  lemma OwnedMore(owner: seq<int>, bounds: seq<int>, nGroups: int, nPart: int, end: int)
    requires Owned(owner, bounds, nGroups) && |bounds| == nGroups - nPart && bounds[|bounds| - 1] <= end
    ensures Owned(owner + seq(end - |owner|, _ => nPart), bounds + [end], nGroups)
  {
    var owner', bounds' := owner + seq(end - |owner|, _ => nPart), bounds + [end];
    forall p, v | 0 <= p < |bounds'| - 1 && 0 <= v < |owner'| && bounds'[p] <= v < bounds'[p + 1]
      ensures owner'[v] == nGroups - 1 - p
    {
      if p < |bounds| - 1 && v < |owner| { assert bounds[p] <= v < bounds[p + 1]; }
    }
  }

  lemma DividedMore(freq: seq<int>, bounds: seq<int>, nGroups: int, ge: int)
    requires Divided(freq, bounds, nGroups) && |bounds| <= nGroups
    requires IsPart(freq, bounds[|bounds| - 1], nGroups - (|bounds| - 1), nGroups, ge)
    ensures Divided(freq, bounds + [ge + 1], nGroups)
  {
    hide IsPart;
  }

  /** Tables as they are at first. */
  ghost predicate Initial(tables: seq<seq<int>>, freq: seq<int>) {
    exists owner, bounds :: InitialFor(tables, freq, owner, bounds)
  }

  ghost predicate InitialFor(tables: seq<seq<int>>, freq: seq<int>, owner: seq<int>, bounds: seq<int>) {
    && Parted(owner, |freq|, 0, |tables|) && |bounds| == |tables| + 1 && Divided(freq, bounds, |tables|)
    && Owned(owner, bounds, |tables|) && forall t | 0 <= t < |tables| :: Costs(tables[t], t, owner)
  }

  lemma {:induction false} SumGrows(freq: seq<int>, i: nat, j: nat)
    requires i <= j <= |freq| && forall v | 0 <= v < |freq| :: freq[v] >= 0
    ensures Sum(freq[..i]) <= Sum(freq[..j])
    decreases j
  {
    if i < j {
      assert freq[..j][..j - 1] == freq[..j - 1];
      SumGrows(freq, i, j - 1);
    }
  }

  lemma SumNext(freq: seq<int>, k: nat)
    requires k < |freq|
    ensures Sum(freq[..k + 1]) == Sum(freq[..k]) + freq[k]
  {
    assert freq[..k + 1][..k] == freq[..k];
  }

  lemma LastCounts(freq: seq<int>, k: nat)
    requires k <= |freq| && |freq| > 0 && freq[|freq| - 1] > 0 && forall v | 0 <= v < |freq| :: freq[v] >= 0
    ensures k < |freq| ==> Sum(freq[..k]) < Sum(freq)
  {
    if k < |freq| { SumGrows(freq, k, |freq| - 1); }
  }

  /** The end of the part that starts at gs. */
  method PartEnd(mtfFreq: array<int>, alphaSize: int, nGroups: int, nPart: int, gs: int, remF: int,
                 ghost freq: seq<int>)
    returns (ge: int, aFreq: int)
    requires 0 < nPart <= nGroups && 0 <= gs <= alphaSize == |freq| && alphaSize > 0
    requires alphaSize <= mtfFreq.Length && mtfFreq[..alphaSize] == freq
    requires (forall v | 0 <= v < alphaSize :: freq[v] >= 0) && freq[alphaSize - 1] > 0
    requires remF == Sum(freq) - Sum(freq[..gs])
    ensures gs - 1 <= ge < alphaSize
    ensures aFreq == Sum(freq[..ge + 1]) - Sum(freq[..gs])
    ensures nPart == 1 ==> ge == alphaSize - 1
    ensures IsPart(freq, gs, nPart, nGroups, ge)
  {
    hide Sum, IsPart, Reaches;
    var tFreq := remF / nPart;
    ge := gs - 1;
    aFreq := 0;
    while aFreq < tFreq && ge < alphaSize - 1
      invariant gs - 1 <= ge < alphaSize
      invariant aFreq == Sum(freq[..ge + 1]) - Sum(freq[..gs])
      invariant forall end | gs <= end <= ge :: PartSum(freq, gs, end) < tFreq
      decreases alphaSize - ge
    {
      ge := ge + 1;
      SumNext(freq, ge);
      aFreq := aFreq + mtfFreq[ge];
    }
    LastCounts(freq, ge + 1);
    ghost var e := ge;
    ReachesAt(freq, gs, tFreq, e);
    if ge > gs && nPart != nGroups && nPart != 1 && (nGroups - nPart) % 2 == 1 {
      SumNext(freq, ge);
      aFreq := aFreq - mtfFreq[ge];
      ge := ge - 1;
    }
    PartIs(freq, gs, nPart, nGroups, e, ge);
  }

  /** One row of costs. */
  method SetCosts(row: array<int>, alphaSize: int, gs: int, ge: int)
    requires row.Length == alphaSize && 0 <= gs <= ge + 1 <= alphaSize
    modifies row
    ensures forall v | 0 <= v < alphaSize ::
              row[v] == if gs <= v <= ge then BZ_LESSER_ICOST else BZ_GREATER_ICOST
  {
    for v := 0 to alphaSize
      invariant forall i | 0 <= i < v :: row[i] == if gs <= i <= ge then BZ_LESSER_ICOST else BZ_GREATER_ICOST
    {
      row[v] := if v >= gs && v <= ge then BZ_LESSER_ICOST else BZ_GREATER_ICOST;
    }
  }

  /** The first tables. Every symbol is cheap in exactly one of them, its owner, and each table owns consecutive
      symbols: the end-of-block symbol occurs, so the last part reaches the end of the alphabet. */
  method InitialTables(len: seq<array<int>>, mtfFreq: array<int>, nMTF: int, alphaSize: int)
    returns (ghost owner: seq<int>, ghost bounds: seq<int>)
    requires 2 <= |len| && Rows(len, |len|, alphaSize) && 0 < alphaSize <= mtfFreq.Length && mtfFreq !in len
    requires forall v | 0 <= v < alphaSize :: mtfFreq[v] >= 0
    requires mtfFreq[alphaSize - 1] > 0 && nMTF == Sum(mtfFreq[..alphaSize])
    modifies len
    ensures Parted(owner, alphaSize, 0, |len|)
    ensures forall t | 0 <= t < |len| :: Costs(len[t][..], t, owner)
    ensures |bounds| == |len| + 1 && Divided(mtfFreq[..alphaSize], bounds, |len|) && Owned(owner, bounds, |len|)
  {
    hide IsPart, Owned, Divided;
    var nGroups := |len|;
    var nPart, remF, gs := nGroups, nMTF, 0;
    ghost var freq := mtfFreq[..alphaSize];
    assert Sum(freq[..0]) == 0;
    owner, bounds := [], [0];
    NothingOwned(freq, nGroups);
    while nPart > 0
      invariant 0 <= nPart <= nGroups && 0 <= gs <= alphaSize && (nPart == 0 ==> gs == alphaSize)
      invariant mtfFreq[..alphaSize] == freq && remF == Sum(freq) - Sum(freq[..gs])
      invariant Parted(owner, gs, nPart, nGroups)
      invariant |bounds| == nGroups - nPart + 1 && bounds[|bounds| - 1] == gs
      invariant Divided(freq, bounds, nGroups) && Owned(owner, bounds, nGroups)
      invariant forall t | nPart <= t < nGroups :: Costs(len[t][..], t, owner)
    {
      var ge, aFreq := PartEnd(mtfFreq, alphaSize, nGroups, nPart, gs, remF, freq);
      SetCosts(len[nPart - 1], alphaSize, gs, ge);
      nPart := nPart - 1;
      ghost var owner0 := owner;
      owner := owner + seq(ge + 1 - gs, _ => nPart);
      OwnedMore(owner0, bounds, nGroups, nPart, ge + 1);
      DividedMore(freq, bounds, nGroups, ge);
      forall t | nPart <= t < nGroups ensures Costs(len[t][..], t, owner) {
        if t > nPart {
          assert len[t] != len[nPart];
          assert Costs(len[t][..], t, owner0);
        }
      }
      gs := ge + 1;
      bounds := bounds + [gs];
      remF := remF - aFreq;
    }
  }
}
