/** sendMTFValues: chooses coding tables by repeated improvement, assigns codes, and transmits everything. */
module BlockCoder {
  import opened Bits
  import opened BitStream
  import opened Huffman
  import opened BlockFormat
  import opened BlockWriter
  import opened CodingTables
  import opened Sums
  import opened MtfEncoder
  import HuffmanLengths
  import HuffmanOptimal
  import HuffmanTree

  const BZ_N_ITERS := 4
  const LONGEST_SENT := 17

  // ---- frequencies ----

  /** Counting zeros as ones adds at most one per symbol. */
  lemma {:induction false} TotalBounded(s: seq<int>)
    requires forall i | 0 <= i < |s| :: s[i] >= 0
    ensures HuffmanLengths.Total(s) <= Sum(s) + |s|
  {
    if s != [] { TotalBounded(s[..|s| - 1]); }
  }

  /** rfreq holds frequencies of m symbols in all. */
  ghost predicate Frequencies(row: seq<int>, m: int) {
    (forall i | 0 <= i < |row| :: row[i] >= 0) && Sum(row) <= m
  }

  /** How often v occurs among the first n symbols, in the groups that select table t. */
  ghost function Coded(mtfv: seq<int>, sel: seq<int>, t: int, v: int, n: nat): nat
    requires n <= |mtfv|
  {
    if n == 0 then 0
    else Coded(mtfv, sel, t, v, n - 1) + if InTable(sel, t, n - 1) && mtfv[n - 1] == v then 1 else 0
  }

  /** Symbol i is in a group that selects table t. */
  ghost predicate InTable(sel: seq<int>, t: int, i: nat) {
    i / BZ_G_SIZE < |sel| && sel[i / BZ_G_SIZE] == t
  }

  /** The row of rfreq for table t. */
  ghost predicate IsCoded(row: seq<int>, mtfv: seq<int>, sel: seq<int>, t: int, n: nat) {
    n <= |mtfv| && forall v | 0 <= v < |row| :: row[v] == Coded(mtfv, sel, t, v, n)
  }

  lemma CodedStep(row: seq<int>, mtfv: seq<int>, sel: seq<int>, t: int, n: nat)
    requires IsCoded(row, mtfv, sel, t, n) && n < |mtfv| && 0 <= mtfv[n] < |row|
    ensures InTable(sel, t, n) ==> IsCoded(row[mtfv[n] := row[mtfv[n]] + 1], mtfv, sel, t, n + 1)
    ensures !InTable(sel, t, n) ==> IsCoded(row, mtfv, sel, t, n + 1)
  {
  }

  lemma NothingCoded(row: seq<int>, mtfv: seq<int>, sel: seq<int>, t: int)
    requires forall v | 0 <= v < |row| :: row[v] == 0
    ensures IsCoded(row, mtfv, sel, t, 0)
  {
  }

  /** A selector for the next group changes nothing about the groups before. */
  lemma MoreSelectors(row: seq<int>, mtfv: seq<int>, sel: seq<int>, bt: int, t: int, n: nat)
    requires IsCoded(row, mtfv, sel, t, n) && n <= BZ_G_SIZE * |sel|
    ensures IsCoded(row, mtfv, sel + [bt], t, n)
  {
    forall v | 0 <= v < |row| ensures row[v] == Coded(mtfv, sel + [bt], t, v, n) {
      CodedBefore(mtfv, sel, bt, t, v, n);
    }
  }

  lemma {:induction false} CodedBefore(mtfv: seq<int>, sel: seq<int>, bt: int, t: int, v: int, n: nat)
    requires n <= |mtfv| && n <= BZ_G_SIZE * |sel|
    ensures Coded(mtfv, sel + [bt], t, v, n) == Coded(mtfv, sel, t, v, n)
  {
    if n > 0 {
      CodedBefore(mtfv, sel, bt, t, v, n - 1);
      assert (n - 1) / BZ_G_SIZE < |sel|;
    }
  }

  /** All rows together count each symbol at most once. */
  lemma {:induction false} CodedBounded(row: seq<int>, mtfv: seq<int>, sel: seq<int>, t: int, n: nat)
    requires IsCoded(row, mtfv, sel, t, n)
    ensures Frequencies(row, n)
    decreases n
  {
    if n == 0 {
      SumZero(row);
    } else {
      var before := seq(|row|, v => Coded(mtfv, sel, t, v, n - 1));
      CodedBounded(before, mtfv, sel, t, n - 1);
      if InTable(sel, t, n - 1) && 0 <= mtfv[n - 1] < |row| {
        assert row == before[mtfv[n - 1] := before[mtfv[n - 1]] + 1];
        SumUpdate(before, mtfv[n - 1], before[mtfv[n - 1]] + 1);
      } else {
        assert row == before;
      }
    }
  }

  // ---- one pass of improvement ----

  /** The symbols, in the array they share with the pointers. */
  ghost predicate Stored(arr1: array<int>, nMTF: int, little: bool, mtfv: seq<int>, alphaSize: int)
    reads arr1
  {
    && nMTF == |mtfv| && (forall i | 0 <= i < nMTF :: 0 <= mtfv[i] < alphaSize)
    && forall i | 0 <= i < nMTF :: i / 2 < arr1.Length && Half(arr1[..], i, little) == mtfv[i]
  }

  /** What the symbols from gs up to ge cost under the given lengths. */
  ghost function Cost(lens: seq<int>, mtfv: seq<int>, gs: int, ge: int): int
    requires 0 <= gs && ge <= |mtfv|
    decreases ge - gs
  {
    if ge <= gs then 0 else Cost(lens, mtfv, gs, ge - 1) + At(lens, mtfv[ge - 1])
  }

  ghost function At(lens: seq<int>, v: int): int {
    if 0 <= v < |lens| then lens[v] else 0
  }

  /** Table bt codes the symbols from gs up to ge at least as cheaply as any other, and is the first that does. */
  ghost predicate Cheapest(tables: seq<seq<int>>, mtfv: seq<int>, gs: int, ge: int, bt: int)
    requires 0 <= gs && ge <= |mtfv|
  {
    && 0 <= bt < |tables|
    && (forall t | 0 <= t < |tables| :: Cost(tables[bt], mtfv, gs, ge) <= Cost(tables[t], mtfv, gs, ge))
    && forall t | 0 <= t < bt :: Cost(tables[bt], mtfv, gs, ge) < Cost(tables[t], mtfv, gs, ge)
  }

  /** The table that codes a group most cheaply. */
  method BestTable(arr1: array<int>, little: bool, gs: int, ge: int, len: seq<array<int>>, alphaSize: int, nMTF: int,
                   ghost mtfv: seq<int>) returns (bt: int)
    requires Stored(arr1, nMTF, little, mtfv, alphaSize) && 0 <= gs <= ge < nMTF && ge - gs < BZ_G_SIZE
    requires alphaSize >= 0 && 1 <= |len| <= BZ_N_GROUPS && forall t | 0 <= t < |len| :: len[t].Length == alphaSize
    requires forall t, v | 0 <= t < |len| && 0 <= v < alphaSize :: 0 <= len[t][v] <= LONGEST_CODE
    ensures Cheapest(TableValues(len, alphaSize), mtfv, gs, ge + 1, bt)
  {
    hide Stored, Cost, Cheapest;
    StoredSymbols(arr1, nMTF, little, mtfv, alphaSize);
    ghost var tables := TableValues(len, alphaSize);
    var cost := AllCosts(arr1, little, gs, ge, len, alphaSize, nMTF, mtfv);
    var bc := 999999999;
    bt := -1;
    for t := 0 to |len|
      invariant t == 0 ==> bt == -1 && bc == 999999999
      invariant t > 0 ==> 0 <= bt < t && bc == cost[bt]
      invariant forall u | 0 <= u < t :: bc <= cost[u] && (u < bt ==> bc < cost[u])
    {
      if cost[t] < bc { bc := cost[t]; bt := t; }
    }
    FirstCheapest(tables, mtfv, gs, ge + 1, cost[..], bt);
  }

  lemma FirstCheapest(tables: seq<seq<int>>, mtfv: seq<int>, gs: int, ge: int, cost: seq<int>, bt: int)
    requires 0 <= gs && ge <= |mtfv| && 0 <= bt < |tables| <= |cost|
    requires forall t | 0 <= t < |tables| :: cost[t] == Cost(tables[t], mtfv, gs, ge)
    requires forall t | 0 <= t < |tables| :: cost[bt] <= cost[t] && (t < bt ==> cost[bt] < cost[t])
    ensures Cheapest(tables, mtfv, gs, ge, bt)
  {
  }

  lemma CostNothing(tables: seq<seq<int>>, mtfv: seq<int>, gs: int)
    requires 0 <= gs <= |mtfv|
    ensures forall t | 0 <= t < |tables| :: Cost(tables[t], mtfv, gs, gs) == 0
  {
  }

  /** Adds what one symbol costs under every table. */
  method AddCosts(cost: array<int>, len: seq<array<int>>, alphaSize: int, icv: int, ghost mtfv: seq<int>,
                  ghost gs: int, ghost i: int, ghost tables: seq<seq<int>>)
    requires cost.Length == BZ_N_GROUPS >= |len| && 0 <= gs <= i < |mtfv| && icv == mtfv[i] && 0 <= icv < alphaSize
    requires |tables| == |len| && cost !in len
    requires forall t | 0 <= t < |len| :: len[t].Length == alphaSize && tables[t] == len[t][..]
    requires forall u | 0 <= u < |len| :: cost[u] == Cost(tables[u], mtfv, gs, i)
    modifies cost
    ensures forall u | 0 <= u < |len| :: cost[u] == Cost(tables[u], mtfv, gs, i + 1)
    ensures forall u | 0 <= u < |len| :: cost[u] == old(cost[u]) + len[u][icv]
  {
    for t := 0 to |len|
      invariant forall u | 0 <= u < t :: cost[u] == old(cost[u]) + len[u][icv]
      invariant forall u | t <= u < |len| :: cost[u] == old(cost[u])
    {
      cost[t] := cost[t] + len[t][icv];
    }
    forall u | 0 <= u < |len| ensures cost[u] == Cost(tables[u], mtfv, gs, i + 1) {
      assert tables[u][icv] == len[u][icv];
    }
  }

  /** The cost of a group under every table; sixteen bits hold it. */
  method AllCosts(arr1: array<int>, little: bool, gs: int, ge: int, len: seq<array<int>>, alphaSize: int, nMTF: int,
                  ghost mtfv: seq<int>) returns (cost: array<int>)
    requires Stored(arr1, nMTF, little, mtfv, alphaSize) && 0 <= gs <= ge < nMTF && ge - gs < BZ_G_SIZE
    requires alphaSize >= 0 && 1 <= |len| <= BZ_N_GROUPS && forall t | 0 <= t < |len| :: len[t].Length == alphaSize
    requires forall t, v | 0 <= t < |len| && 0 <= v < alphaSize :: 0 <= len[t][v] <= LONGEST_CODE
    ensures cost.Length == BZ_N_GROUPS
    ensures forall t | 0 <= t < |len| ::
              0 <= cost[t] <= 1000 && cost[t] == Cost(TableValues(len, alphaSize)[t], mtfv, gs, ge + 1)
  {
    hide Half, Cost, Stored;
    StoredSymbols(arr1, nMTF, little, mtfv, alphaSize);
    ghost var tables := TableValues(len, alphaSize);
    forall t | 0 <= t < |len| ensures tables[t] == len[t][..] {}
    assert forall t | 0 <= t < |len| :: Cost(tables[t], mtfv, gs, gs) == 0 by { CostNothing(tables, mtfv, gs); }
    cost := new int[BZ_N_GROUPS];
    for t := 0 to |len|
      invariant forall u | 0 <= u < t :: cost[u] == 0
    {
      cost[t] := 0;
    }
    for i := gs to ge + 1
      invariant forall u | 0 <= u < |len| :: 0 <= cost[u] <= LONGEST_CODE * (i - gs)
      invariant forall u | 0 <= u < |len| :: cost[u] == Cost(tables[u], mtfv, gs, i)
    {
      StoredAt(arr1, nMTF, little, mtfv, alphaSize, i);
      var icv := Half(arr1[..], i, little);
      AddCosts(cost, len, alphaSize, icv, mtfv, gs, i, tables);
    }
  }

  lemma IsBest(tables: seq<seq<int>>, mtfv: seq<int>, gs: int, ge: int, bt: int)
    requires 0 <= gs && ge <= |mtfv|
    requires Cheapest(tables, mtfv, gs, ge, bt)
    ensures 0 <= bt < |tables|
  {
  }

  /** Where group k ends. */
  function GroupEnd(k: int, nMTF: int): int {
    if (k + 1) * BZ_G_SIZE < nMTF then (k + 1) * BZ_G_SIZE else nMTF
  }

  /** Selects the table for one group, and adds its symbols to the frequencies. */
  method SelectOne(arr1: array<int>, nMTF: int, little: bool, len: seq<array<int>>, rfreq: seq<array<int>>,
                   selector: array<int>, k: int, gs: int, ge: int, alphaSize: int, ghost mtfv: seq<int>)
    requires Stored(arr1, nMTF, little, mtfv, alphaSize) && 2 <= |len| <= BZ_N_GROUPS
    requires alphaSize >= 0 && Rows(len, |len|, alphaSize) && Rows(rfreq, |len|, alphaSize)
    requires 0 <= k < selector.Length && gs == BZ_G_SIZE * k <= ge < nMTF && ge < gs + BZ_G_SIZE
    requires forall t, u | 0 <= t < |len| && 0 <= u < |len| :: len[t] != rfreq[u]
    requires arr1 !in rfreq && selector !in rfreq && selector !in len && arr1 != selector
    requires forall t, v | 0 <= t < |len| && 0 <= v < alphaSize :: 0 <= len[t][v] <= LONGEST_CODE
    requires forall t | 0 <= t < |len| :: IsCoded(rfreq[t][..], mtfv, selector[..k], t, gs)
    modifies selector, rfreq
    ensures (forall i | 0 <= i < k :: selector[i] == old(selector[i])) && 0 <= selector[k] < |len|
    ensures Cheapest(TableValues(len, alphaSize), mtfv, gs, ge + 1, selector[k])
    ensures forall t | 0 <= t < |len| :: IsCoded(rfreq[t][..], mtfv, selector[..k + 1], t, ge + 1)
  {
    hide Half, IsCoded, Cost, Cheapest;
    var bt := BestTable(arr1, little, gs, ge, len, alphaSize, nMTF, mtfv);
    IsBest(TableValues(len, alphaSize), mtfv, gs, ge + 1, bt);
    ghost var sel := selector[..k];
    selector[k] := bt;
    assert selector[..k + 1] == sel + [bt];
    CountGroup(arr1, nMTF, little, rfreq, bt, gs, ge, alphaSize, mtfv, sel);
  }

  /** Selects a table for every group and counts what each table has to code. */
  method SelectTables(arr1: array<int>, nMTF: int, little: bool, len: seq<array<int>>, rfreq: seq<array<int>>,
                      selector: array<int>, alphaSize: int, ghost mtfv: seq<int>)
    returns (nSelectors: int)
    requires Stored(arr1, nMTF, little, mtfv, alphaSize) && 2 <= |len| <= BZ_N_GROUPS && 0 < nMTF <= 900001
    requires alphaSize >= 0 && Rows(len, |len|, alphaSize) && Rows(rfreq, |len|, alphaSize)
             && selector.Length == BZ_MAX_SELECTORS
    requires forall t, u | 0 <= t < |len| && 0 <= u < |len| :: len[t] != rfreq[u]
    requires arr1 !in rfreq && selector !in rfreq && selector !in len && arr1 != selector
    requires forall t, v | 0 <= t < |len| && 0 <= v < alphaSize :: 0 <= len[t][v] <= LONGEST_CODE
    modifies selector, rfreq
    ensures nSelectors == (nMTF + BZ_G_SIZE - 1) / BZ_G_SIZE <= BZ_MAX_SELECTORS
    ensures forall k | 0 <= k < nSelectors :: 0 <= selector[k] < |len|
    ensures forall k | 0 <= k < nSelectors ::
              Cheapest(TableValues(len, alphaSize), mtfv, k * BZ_G_SIZE, GroupEnd(k, nMTF), selector[k])
    ensures forall t | 0 <= t < |len| :: IsCoded(rfreq[t][..], mtfv, selector[..nSelectors], t, nMTF)
  {
    hide Half, IsCoded, Cost, Cheapest;
    ghost var tables := TableValues(len, alphaSize);
    ClearRows(rfreq, |len|, alphaSize, mtfv);
    nSelectors := 0;
    assert selector[..0] == [];
    var gs := 0;
    while gs < nMTF
      invariant 0 <= gs <= nMTF && gs == (if nSelectors * BZ_G_SIZE < nMTF then nSelectors * BZ_G_SIZE else nMTF)
      invariant 0 <= nSelectors <= (nMTF + BZ_G_SIZE - 1) / BZ_G_SIZE
                && (gs == nMTF ==> nSelectors == (nMTF + BZ_G_SIZE - 1) / BZ_G_SIZE)
      invariant Stored(arr1, nMTF, little, mtfv, alphaSize)
      invariant forall t, v | 0 <= t < |len| && 0 <= v < alphaSize :: 0 <= len[t][v] <= LONGEST_CODE
      invariant forall k | 0 <= k < nSelectors :: 0 <= selector[k] < |len|
      invariant forall k | 0 <= k < nSelectors ::
                  Cheapest(tables, mtfv, k * BZ_G_SIZE, GroupEnd(k, nMTF), selector[k])
      invariant forall t | 0 <= t < |len| :: IsCoded(rfreq[t][..], mtfv, selector[..nSelectors], t, gs)
      decreases nMTF - gs
    {
      var ge := gs + BZ_G_SIZE - 1;
      if ge >= nMTF { ge := nMTF - 1; }
      SelectOne(arr1, nMTF, little, len, rfreq, selector, nSelectors, gs, ge, alphaSize, mtfv);
      nSelectors := nSelectors + 1;
      gs := ge + 1;
    }
  }

  method ClearRows(rows: seq<array<int>>, n: int, alphaSize: int, ghost mtfv: seq<int>)
    requires Rows(rows, n, alphaSize) && n >= 0 && alphaSize >= 0
    modifies rows
    ensures forall t | 0 <= t < n :: IsCoded(rows[t][..], mtfv, [], t, 0)
  {
    hide IsCoded;
    for t := 0 to n
      invariant forall u | 0 <= u < t :: IsCoded(rows[u][..], mtfv, [], u, 0)
    {
      ghost var others := TableValues(rows, alphaSize);
      ClearRow(rows[t], mtfv, t);
      forall u | 0 <= u < t ensures IsCoded(rows[u][..], mtfv, [], u, 0) {
        assert rows[u][..] == rows[u][..alphaSize] == others[u];
      }
    }
  }

  method ClearRow(row: array<int>, ghost mtfv: seq<int>, ghost t: int)
    modifies row
    ensures IsCoded(row[..], mtfv, [], t, 0)
  {
    for v := 0 to row.Length
      invariant forall i | 0 <= i < v :: row[i] == 0
    {
      row[v] := 0;
    }
    NothingCoded(row[..], mtfv, [], t);
  }

  /** Adds the symbols of one group to the frequencies of its table. */
  method CountGroup(arr1: array<int>, nMTF: int, little: bool, rfreq: seq<array<int>>, bt: int, gs: int, ge: int,
                    alphaSize: int, ghost mtfv: seq<int>, ghost sel: seq<int>)
    requires Stored(arr1, nMTF, little, mtfv, alphaSize) && gs == BZ_G_SIZE * |sel| <= ge < nMTF
    requires ge < gs + BZ_G_SIZE
    requires Rows(rfreq, |rfreq|, alphaSize) && 0 <= bt < |rfreq| && arr1 !in rfreq
    requires forall t | 0 <= t < |rfreq| :: IsCoded(rfreq[t][..], mtfv, sel, t, gs)
    modifies rfreq[bt]
    ensures forall t | 0 <= t < |rfreq| :: IsCoded(rfreq[t][..], mtfv, sel + [bt], t, ge + 1)
  {
    hide Half, IsCoded;
    var row := rfreq[bt];
    MoreSelectors(row[..], mtfv, sel, bt, bt, gs);
    for i := gs to ge + 1
      invariant IsCoded(row[..], mtfv, sel + [bt], bt, i)
    {
      ghost var row0 := row[..];
      var v := Half(arr1[..], i, little);
      assert v == mtfv[i];
      row[v] := row[v] + 1;
      InGroup(sel, bt, i);
      CodedStep(row0, mtfv, sel + [bt], bt, i);
      assert row[..] == row0[v := row0[v] + 1];
    }
    forall t | 0 <= t < |rfreq| ensures IsCoded(rfreq[t][..], mtfv, sel + [bt], t, ge + 1) {
      if t != bt {
        assert rfreq[t] != row;
        assert rfreq[t][..] == old(rfreq[t][..]);
        MoreSelectors(rfreq[t][..], mtfv, sel, bt, t, gs);
        OtherTable(rfreq[t][..], mtfv, sel, bt, t, gs, ge + 1);
      }
    }
  }

  lemma InGroup(sel: seq<int>, bt: int, i: nat)
    requires BZ_G_SIZE * |sel| <= i < BZ_G_SIZE * (|sel| + 1)
    ensures forall t :: InTable(sel + [bt], t, i) <==> t == bt
  {
    assert i / BZ_G_SIZE == |sel|;
  }

  /** The symbols of a group do not count for another table. */
  lemma {:induction false} OtherTable(row: seq<int>, mtfv: seq<int>, sel: seq<int>, bt: int, t: int, n: nat, m: nat)
    requires IsCoded(row, mtfv, sel + [bt], t, n) && t != bt && BZ_G_SIZE * |sel| <= n <= m <= |mtfv|
    requires m <= BZ_G_SIZE * (|sel| + 1) && forall i | 0 <= i < |mtfv| :: 0 <= mtfv[i] < |row|
    ensures IsCoded(row, mtfv, sel + [bt], t, m)
    decreases m
  {
    if n < m {
      OtherTable(row, mtfv, sel, bt, t, n, m - 1);
      InGroup(sel, bt, m - 1);
      CodedStep(row, mtfv, sel + [bt], t, m - 1);
    }
  }

  /** Lengths as they are sent: at most 17 bits, filling Kraft's inequality. */
  ghost predicate Sendable(lens: seq<int>) {
    Lengths(lens) && CodesFit(lens) && forall i | 0 <= i < |lens| :: lens[i] <= LONGEST_SENT
  }

  /** The best lengths for these frequencies. */
  ghost predicate BestFor(lens: seq<int>, freq: seq<int>) {
    exists rounds: nat :: HuffmanOptimal.BestFitting(freq, lens, LONGEST_SENT, rounds)
  }

  lemma MadeBest(lens: seq<int>, freq: seq<int>, rounds: nat)
    requires HuffmanOptimal.BestFitting(freq, lens, LONGEST_SENT, rounds)
    ensures BestFor(lens, freq)
  {
  }

  /** New lengths for all tables. */
  method MakeTables(len: seq<array<int>>, rfreq: seq<array<int>>, alphaSize: int, m: int)
    requires 2 <= alphaSize <= BZ_MAX_ALPHA_SIZE && 0 <= m <= 900001
    requires Rows(len, |len|, alphaSize) && Rows(rfreq, |len|, alphaSize)
    requires forall t, u | 0 <= t < |len| && 0 <= u < |len| :: len[t] != rfreq[u]
    requires forall t | 0 <= t < |len| :: Frequencies(rfreq[t][..], m)
    modifies len
    ensures forall t | 0 <= t < |len| :: Sendable(len[t][..]) && BestFor(len[t][..], rfreq[t][..])
  {
    hide Sendable, Frequencies, Kraft, Pow2, BestFor;
    for t := 0 to |len|
      invariant forall u | 0 <= u < t :: Sendable(len[u][..]) && BestFor(len[u][..], rfreq[u][..])
      invariant forall u | 0 <= u < |len| :: Frequencies(rfreq[u][..], m)
    {
      ghost var done, freqs := TableValues(len, alphaSize), TableValues(rfreq, alphaSize);
      FrequenciesTotal(rfreq[t][..], m, alphaSize);
      assert rfreq[t][..alphaSize] == rfreq[t][..];
      ghost var rounds := HuffmanLengths.MakeCodeLengths(len[t], rfreq[t], alphaSize, LONGEST_SENT);
      assert len[t][..alphaSize] == len[t][..];
      MadeSendable(len[t][..]);
      MadeBest(len[t][..], rfreq[t][..], rounds);
      forall u | 0 <= u < t ensures Sendable(len[u][..]) && BestFor(len[u][..], rfreq[u][..]) {
        assert len[u][..] == len[u][..alphaSize] == done[u];
      }
    }
  }

  lemma FrequenciesTotal(row: seq<int>, m: int, alphaSize: int)
    requires Frequencies(row, m) && |row| == alphaSize <= BZ_MAX_ALPHA_SIZE && m <= 900001
    ensures HuffmanLengths.Total(row) <= HuffmanTree.MAX_TOTAL && forall i | 0 <= i < |row| :: row[i] >= 0
  {
    TotalBounded(row);
  }

  lemma MadeSendable(lens: seq<int>)
    requires 2 <= |lens| <= BZ_MAX_ALPHA_SIZE && forall i | 0 <= i < |lens| :: 1 <= lens[i] <= LONGEST_SENT
    requires Kraft(lens, LONGEST_SENT) == Pow2(LONGEST_SENT)
    ensures Sendable(lens)
  {
    hide Kraft, Pow2;
    FitAt(lens, LONGEST_SENT);
  }

  // ---- what the tables are made for ----

  /** How often each of n symbols occurs in the groups that select table t. */
  ghost function CodedRow(mtfv: seq<int>, sel: seq<int>, t: int, n: nat): (r: seq<int>)
    ensures |r| == n && forall v | 0 <= v < n :: r[v] == Coded(mtfv, sel, t, v, |mtfv|)
  {
    seq(n, v requires 0 <= v < n => Coded(mtfv, sel, t, v, |mtfv|) as int)
  }

  /** The best lengths for the symbols of the groups that select table t. */
  ghost predicate BestCounted(lens: seq<int>, mtfv: seq<int>, sel: seq<int>, t: int) {
    BestFor(lens, CodedRow(mtfv, sel, t, |lens|))
  }

  /** One pass: every group selects the first of the cheapest tables, and new tables are made for the groups that
      selected them. */
  ghost predicate Pass(tables: seq<seq<int>>, sel: seq<int>, tables': seq<seq<int>>, mtfv: seq<int>) {
    && |tables'| == |tables| && |sel| == (|mtfv| + BZ_G_SIZE - 1) / BZ_G_SIZE
    && (forall k | 0 <= k < |sel| :: Cheapest(tables, mtfv, k * BZ_G_SIZE, GroupEnd(k, |mtfv|), sel[k]))
    && forall t | 0 <= t < |tables'| :: BestCounted(tables'[t], mtfv, sel, t)
  }

  /** n passes lead from the first tables to these. */
  ghost predicate Passes(first: seq<seq<int>>, n: nat, tables: seq<seq<int>>, mtfv: seq<int>) {
    if n == 0 then tables == first
    else exists before, sel :: Pass(before, sel, tables, mtfv) && Passes(first, n - 1, before, mtfv)
  }

  /** Another one leads on, with these selectors. */
  ghost predicate LastPass(first: seq<seq<int>>, n: nat, sel: seq<int>, tables: seq<seq<int>>, mtfv: seq<int>) {
    exists before :: Pass(before, sel, tables, mtfv) && Passes(first, n, before, mtfv)
  }

  /** All passes, from the initial tables for the symbols to these. */
  ghost predicate Trained(tables: seq<seq<int>>, sel: seq<int>, mtfv: seq<int>, alphaSize: nat) {
    exists first: seq<seq<int>> :: |first| == |tables| && Initial(first, Counts(mtfv, alphaSize))
      && LastPass(first, BZ_N_ITERS - 1, sel, tables, mtfv)
  }

  /** What sendMTFValues settles on: as many tables as the number of symbols calls for, and the selectors and tables
      of the last pass. */
  ghost predicate Settles(k: Coding, alphaSize: nat) {
    && |k.tables| == GroupsFor(|k.mtfv|) && Indices(k.js, |k.tables|)
    && Trained(k.tables, Selected(k.js, |k.tables|), k.mtfv, alphaSize)
  }

  // ---- the whole of sendMTFValues ----

  /** One pass: selectors, then tables. */
  method ImproveOnce(arr1: array<int>, nMTF: int, little: bool, len: seq<array<int>>, rfreq: seq<array<int>>,
                     selector: array<int>, alphaSize: int, ghost mtfv: seq<int>)
    returns (nSelectors: int)
    requires Stored(arr1, nMTF, little, mtfv, alphaSize) && 2 <= |len| <= BZ_N_GROUPS && 0 < nMTF <= 900001
    requires 2 <= alphaSize <= BZ_MAX_ALPHA_SIZE && Rows(len, |len|, alphaSize) && Rows(rfreq, |len|, alphaSize)
    requires selector.Length == BZ_MAX_SELECTORS && selector !in len && arr1 !in len && arr1 != selector
    requires arr1 !in rfreq && selector !in rfreq
    requires forall t, u | 0 <= t < |len| && 0 <= u < |len| :: len[t] != rfreq[u]
    requires forall t, v | 0 <= t < |len| && 0 <= v < alphaSize :: 0 <= len[t][v] <= LONGEST_CODE
    modifies selector, len, rfreq
    ensures nSelectors == (nMTF + BZ_G_SIZE - 1) / BZ_G_SIZE <= BZ_MAX_SELECTORS
    ensures forall k | 0 <= k < nSelectors :: 0 <= selector[k] < |len|
    ensures forall t | 0 <= t < |len| :: Sendable(len[t][..])
    ensures forall t, v | 0 <= t < |len| && 0 <= v < alphaSize :: 0 <= len[t][v] <= LONGEST_CODE
    ensures Pass(old(TableValues(len, alphaSize)), selector[..nSelectors], TableValues(len, alphaSize), mtfv)
  {
    hide Half, Frequencies, IsCoded, Sendable, BestFor, Cheapest, BestCounted;
    ghost var before := TableValues(len, alphaSize);
    nSelectors := SelectTables(arr1, nMTF, little, len, rfreq, selector, alphaSize, mtfv);
    ghost var sel := selector[..nSelectors];
    forall t | 0 <= t < |len| ensures Frequencies(rfreq[t][..], nMTF) {
      CodedBounded(rfreq[t][..], mtfv, sel, t, nMTF);
    }
    MakeTables(len, rfreq, alphaSize, nMTF);
    assert sel == selector[..nSelectors];
    forall t | 0 <= t < |len| ensures BestCounted(TableValues(len, alphaSize)[t], mtfv, sel, t) {
      assert TableValues(len, alphaSize)[t] == len[t][..alphaSize] == len[t][..];
      MadeCounted(len[t][..], rfreq[t][..], mtfv, sel, t);
    }
    forall t, v | 0 <= t < |len| && 0 <= v < alphaSize ensures 0 <= len[t][v] <= LONGEST_CODE {
      SendableAt(len[t][..], v);
      assert len[t][..][v] == len[t][v];
    }
  }

  /** Improves the tables BZ_N_ITERS times, starting from any costs. */
  method ImproveTables(arr1: array<int>, nMTF: int, little: bool, len: seq<array<int>>, selector: array<int>,
                       alphaSize: int, ghost mtfv: seq<int>)
    returns (nSelectors: int)
    requires Stored(arr1, nMTF, little, mtfv, alphaSize) && 2 <= |len| <= BZ_N_GROUPS && 0 < nMTF <= 900001
    requires 2 <= alphaSize <= BZ_MAX_ALPHA_SIZE && Rows(len, |len|, alphaSize) && selector.Length == BZ_MAX_SELECTORS
    requires selector !in len && arr1 !in len && arr1 != selector
    requires forall t, v | 0 <= t < |len| && 0 <= v < alphaSize :: 0 <= len[t][v] <= LONGEST_CODE
    modifies selector, len
    ensures nSelectors == (nMTF + BZ_G_SIZE - 1) / BZ_G_SIZE <= BZ_MAX_SELECTORS
    ensures forall k | 0 <= k < nSelectors :: 0 <= selector[k] < |len|
    ensures forall t | 0 <= t < |len| :: Sendable(len[t][..])
    ensures LastPass(old(TableValues(len, alphaSize)), BZ_N_ITERS - 1, selector[..nSelectors],
                     TableValues(len, alphaSize), mtfv)
  {
    hide Half, Frequencies, IsCoded, Sendable, BestFor, Cheapest, Passes, Pass, LastPass;
    ghost var first := TableValues(len, alphaSize);
    NoPass(first, mtfv);
    var rfreq := NewRows(|len|, alphaSize);
    nSelectors := 0;
    for iter := 0 to BZ_N_ITERS
      invariant Stored(arr1, nMTF, little, mtfv, alphaSize)
      invariant forall t, v | 0 <= t < |len| && 0 <= v < alphaSize :: 0 <= len[t][v] <= LONGEST_CODE
      invariant iter > 0 ==> nSelectors == (nMTF + BZ_G_SIZE - 1) / BZ_G_SIZE <= BZ_MAX_SELECTORS
      invariant iter > 0 ==> forall k | 0 <= k < nSelectors :: 0 <= selector[k] < |len|
      invariant iter > 0 ==> forall t | 0 <= t < |len| :: Sendable(len[t][..])
      invariant Passes(first, iter, TableValues(len, alphaSize), mtfv)
      invariant iter > 0 ==>
                  LastPass(first, iter - 1, selector[..nSelectors], TableValues(len, alphaSize), mtfv)
    {
      ghost var before := TableValues(len, alphaSize);
      nSelectors := ImproveOnce(arr1, nMTF, little, len, rfreq, selector, alphaSize, mtfv);
      OnePass(first, iter, before, selector[..nSelectors], TableValues(len, alphaSize), mtfv);
    }
  }

  lemma NoPass(first: seq<seq<int>>, mtfv: seq<int>)
    ensures Passes(first, 0, first, mtfv)
  {
  }

  lemma MadeCounted(lens: seq<int>, row: seq<int>, mtfv: seq<int>, sel: seq<int>, t: int)
    requires BestFor(lens, row) && |row| == |lens| && IsCoded(row, mtfv, sel, t, |mtfv|)
    ensures BestCounted(lens, mtfv, sel, t)
  {
    hide BestFor, Coded;
    assert row == CodedRow(mtfv, sel, t, |lens|);
  }

  lemma OnePass(first: seq<seq<int>>, n: nat, tables: seq<seq<int>>, sel: seq<int>, tables': seq<seq<int>>,
                mtfv: seq<int>)
    requires Passes(first, n, tables, mtfv) && Pass(tables, sel, tables', mtfv)
    ensures Passes(first, n + 1, tables', mtfv) && LastPass(first, n, sel, tables', mtfv)
  {
    hide Pass;
  }

  lemma SendableAt(lens: seq<int>, v: int)
    requires Sendable(lens) && 0 <= v < |lens|
    ensures 1 <= lens[v] <= LONGEST_SENT <= LONGEST_CODE
  {
  }

  /** Assigns codes to all tables; no length is above 17 and none below 1. */
  method AssignAll(len: seq<array<int>>, alphaSize: int) returns (code: seq<array<int>>)
    requires 0 < alphaSize && (forall t | 0 <= t < |len| :: len[t].Length == alphaSize && Sendable(len[t][..]))
    ensures fresh(code) && AllLengths(TableValues(len, alphaSize), alphaSize)
    ensures CodesAssigned(code, TableValues(len, alphaSize), alphaSize)
  {
    hide Code, CodesFit;
    code := [];
    ghost var tables := TableValues(len, alphaSize);
    forall t | 0 <= t < |len| ensures Lengths(tables[t]) { assert tables[t] == len[t][..]; }
    for t := 0 to |len|
      invariant |code| == t && fresh(code)
      invariant forall u | 0 <= u < t :: code[u].Length == alphaSize && forall i | 0 <= i < alphaSize ::
                  code[u][i] == Code(tables[u], i)
    {
      assert len[t][..alphaSize] == len[t][..] == tables[t];
      var minLen, maxLen := FindExtremes(len[t], alphaSize);
      assert maxLen <= LONGEST_SENT && minLen >= 1;   // assertions 3004 and 3005
      var row := new int[alphaSize];
      AssignCodes(row, len[t], minLen, maxLen, alphaSize);
      code := code + [row];
    }
  }

  /** The arrays hold what k says. */
  ghost predicate Represents(k: Coding, inUse: array<bool>, len: seq<array<int>>, code: seq<array<int>>,
                             selector: array<int>, selectorMtf: array<int>, nSelectors: int, alphaSize: int,
                             mtfv: seq<int>)
    reads inUse, len, code, selector, selectorMtf
  {
    && 3 <= alphaSize <= BZ_MAX_ALPHA_SIZE && inUse.Length == 256
    && Codes(k, alphaSize - 2) && k.inUse == inUse[..] && k.mtfv == mtfv
    && (forall t | 0 <= t < |len| :: len[t].Length == alphaSize) && k.tables == TableValues(len, alphaSize)
    && 0 <= nSelectors <= selector.Length && nSelectors <= selectorMtf.Length
    && k.js == selectorMtf[..nSelectors] && selector[..nSelectors] == Selected(k.js, |k.tables|)
    && CodesAssigned(code, k.tables, alphaSize)
  }

  /** The tables of the first pass. */
  method FirstTables(len: seq<array<int>>, mtfFreq: array<int>, nMTF: int, alphaSize: int, ghost mtfv: seq<int>)
    requires 2 <= |len| && Rows(len, |len|, alphaSize) && 0 < alphaSize && mtfFreq !in len && nMTF == |mtfv|
    requires Counted(mtfFreq[..], mtfv, alphaSize) && alphaSize - 1 in mtfv
    requires forall i | 0 <= i < |mtfv| :: 0 <= mtfv[i] < alphaSize
    modifies len
    ensures forall t, v | 0 <= t < |len| && 0 <= v < alphaSize :: 0 <= len[t][v] <= LONGEST_CODE
    ensures Initial(TableValues(len, alphaSize), Counts(mtfv, alphaSize))
  {
    hide Counted, Costs, Parted, Sum, Divided, Owned, Initial;
    FrequenciesKnown(mtfFreq, mtfv, alphaSize);
    ghost var freqs := mtfFreq[..];
    ghost var owner, bounds := InitialTables(len, mtfFreq, nMTF, alphaSize);
    assert mtfFreq[..] == freqs;
    StartingTables(len, alphaSize, mtfFreq, mtfv, owner, bounds);
    forall t, v | 0 <= t < |len| && 0 <= v < alphaSize ensures 0 <= len[t][v] <= LONGEST_CODE {
      CostAt(len[t][..], t, owner, v);
    }
  }

  /** Tables and selectors. */
  method TrainTables(arr1: array<int>, mtfFreq: array<int>, nMTF: int, little: bool, alphaSize: int,
                     ghost mtfv: seq<int>)
    returns (len: seq<array<int>>, selector: array<int>, nSelectors: int)
    requires 2 <= alphaSize <= BZ_MAX_ALPHA_SIZE && 0 < nMTF <= 900001
    requires Stored(arr1, nMTF, little, mtfv, alphaSize) && alphaSize - 1 in mtfv
    requires Counted(mtfFreq[..], mtfv, alphaSize)
    ensures fresh(len) && fresh(selector) && Rows(len, GroupsFor(nMTF), alphaSize)
    ensures selector.Length == BZ_MAX_SELECTORS
    ensures nSelectors == (nMTF + BZ_G_SIZE - 1) / BZ_G_SIZE <= BZ_MAX_SELECTORS
    ensures forall k | 0 <= k < nSelectors :: 0 <= selector[k] < |len|
    ensures forall t | 0 <= t < |len| :: Sendable(len[t][..])
    ensures Trained(TableValues(len, alphaSize), selector[..nSelectors], mtfv, alphaSize)
  {
    hide Half, Sendable, Stored, Counted, LastPass, Initial;
    StoredSymbols(arr1, nMTF, little, mtfv, alphaSize);
    len := NewRows(GroupsFor(nMTF), alphaSize);
    FirstTables(len, mtfFreq, nMTF, alphaSize, mtfv);
    ghost var first := TableValues(len, alphaSize);
    selector := new int[BZ_MAX_SELECTORS];
    nSelectors := ImproveTables(arr1, nMTF, little, len, selector, alphaSize, mtfv);
  }

  /** Settles tables, selectors and codes. */
  method ChooseCoding(arr1: array<int>, mtfFreq: array<int>, nMTF: int, little: bool, inUse: array<bool>, nInUse: int,
                      ghost mtfv: seq<int>)
    returns (len: seq<array<int>>, code: seq<array<int>>, selector: array<int>, selectorMtf: array<int>,
             nSelectors: int, ghost k: Coding)
    requires inUse.Length == 256 && 1 <= nInUse <= 256 && 0 < nMTF <= 900001
    requires Stored(arr1, nMTF, little, mtfv, nInUse + 2) && nInUse + 1 in mtfv
    requires Counted(mtfFreq[..], mtfv, nInUse + 2)
    ensures fresh(len) && fresh(code) && fresh(selector) && fresh(selectorMtf)
    ensures Represents(k, inUse, len, code, selector, selectorMtf, nSelectors, nInUse + 2, mtfv)
    ensures Settles(k, nInUse + 2)
  {
    hide Half, Sendable, CodesFit, CodesAssigned, Represents, Selected, Stored, Counted, Costs, Parted, Sum, Settles,
         Trained, GoodData, Lengths, Indices;
    var alphaSize, nGroups := nInUse + 2, GroupsFor(nMTF);
    StoredSymbols(arr1, nMTF, little, mtfv, alphaSize);
    len, selector, nSelectors := TrainTables(arr1, mtfFreq, nMTF, little, alphaSize, mtfv);
    selectorMtf := new int[BZ_MAX_SELECTORS];
    SelectorIndices(selector, selectorMtf, nGroups, nSelectors);
    code := AssignAll(len, alphaSize);
    k := Coding(inUse[..], selectorMtf[..nSelectors], TableValues(len, alphaSize), mtfv);
    AllFit(len, alphaSize);
    Settled(k, inUse, len, code, selector, selectorMtf, nSelectors, alphaSize, mtfv);
    SettlesOn(k, alphaSize);
  }

  lemma StartingTables(len: seq<array<int>>, alphaSize: int, mtfFreq: array<int>, mtfv: seq<int>, owner: seq<int>,
                       bounds: seq<int>)
    requires 0 < alphaSize <= mtfFreq.Length && Counted(mtfFreq[..], mtfv, alphaSize)
    requires forall t | 0 <= t < |len| :: len[t].Length == alphaSize && Costs(len[t][..], t, owner)
    requires Parted(owner, alphaSize, 0, |len|) && |bounds| == |len| + 1
    requires Divided(mtfFreq[..alphaSize], bounds, |len|) && Owned(owner, bounds, |len|)
    ensures Initial(TableValues(len, alphaSize), Counts(mtfv, alphaSize))
  {
    hide Costs, Parted, Divided, Owned;
    assert mtfFreq[..alphaSize] == Counts(mtfv, alphaSize);
    forall t | 0 <= t < |len| ensures Costs(TableValues(len, alphaSize)[t], t, owner) {
      assert len[t][..] == len[t][..alphaSize];
    }
    assert InitialFor(TableValues(len, alphaSize), Counts(mtfv, alphaSize), owner, bounds);
  }

  lemma SettlesOn(k: Coding, alphaSize: nat)
    requires |k.tables| == GroupsFor(|k.mtfv|) && Indices(k.js, |k.tables|)
    requires Trained(k.tables, Selected(k.js, |k.tables|), k.mtfv, alphaSize)
    ensures Settles(k, alphaSize)
  {
    hide Trained, Selected;
  }

  /** What the frequencies of the symbols add up to. */
  lemma FrequenciesKnown(mtfFreq: array<int>, mtfv: seq<int>, alphaSize: int)
    requires 0 < alphaSize && Counted(mtfFreq[..], mtfv, alphaSize) && alphaSize - 1 in mtfv
    requires forall i | 0 <= i < |mtfv| :: 0 <= mtfv[i] < alphaSize
    ensures alphaSize <= mtfFreq.Length && forall v | 0 <= v < alphaSize :: mtfFreq[v] >= 0
    ensures mtfFreq[alphaSize - 1] > 0 && Sum(mtfFreq[..alphaSize]) == |mtfv|
  {
    hide Sum;
    CountsTotal(mtfv, alphaSize);
    assert mtfFreq[..alphaSize] == Counts(mtfv, alphaSize);
    assert forall v | 0 <= v < alphaSize :: mtfFreq[v] == mtfFreq[..][v];
  }

  lemma CostAt(row: seq<int>, t: int, owner: seq<int>, v: int)
    requires Costs(row, t, owner) && 0 <= v < |row|
    ensures row[v] == BZ_LESSER_ICOST || row[v] == BZ_GREATER_ICOST
  {
  }

  lemma StoredAt(arr1: array<int>, nMTF: int, little: bool, mtfv: seq<int>, alphaSize: int, i: int)
    requires Stored(arr1, nMTF, little, mtfv, alphaSize) && 0 <= i < nMTF
    ensures i < |mtfv| && i / 2 < arr1.Length && Half(arr1[..], i, little) == mtfv[i] && 0 <= mtfv[i] < alphaSize
  {
    hide Half;
  }

  lemma StoredSymbols(arr1: array<int>, nMTF: int, little: bool, mtfv: seq<int>, alphaSize: int)
    requires Stored(arr1, nMTF, little, mtfv, alphaSize)
    ensures nMTF == |mtfv| && forall i | 0 <= i < nMTF :: 0 <= mtfv[i] < alphaSize
  {
  }

  lemma AllFit(len: seq<array<int>>, alphaSize: int)
    requires alphaSize >= 0 && forall t | 0 <= t < |len| :: len[t].Length == alphaSize && Sendable(len[t][..])
    ensures forall t | 0 <= t < |len| :: CodesFit(TableValues(len, alphaSize)[t])
  {
    hide CodesFit, Sendable;
    forall t | 0 <= t < |len| ensures CodesFit(TableValues(len, alphaSize)[t]) {
      assert len[t][..] == len[t][..alphaSize] == TableValues(len, alphaSize)[t];
      SendableFits(len[t][..]);
    }
  }

  lemma Settled(k: Coding, inUse: array<bool>, len: seq<array<int>>, code: seq<array<int>>, selector: array<int>,
                selectorMtf: array<int>, nSelectors: int, alphaSize: int, mtfv: seq<int>)
    requires 3 <= alphaSize <= BZ_MAX_ALPHA_SIZE && inUse.Length == 256 && 2 <= |len| <= BZ_N_GROUPS && |mtfv| > 0
    requires forall t | 0 <= t < |len| :: len[t].Length == alphaSize
    requires AllLengths(TableValues(len, alphaSize), alphaSize)
    requires forall t | 0 <= t < |len| :: CodesFit(TableValues(len, alphaSize)[t])
    requires 0 <= nSelectors <= selector.Length && nSelectors <= selectorMtf.Length
    requires nSelectors == (|mtfv| + BZ_G_SIZE - 1) / BZ_G_SIZE <= BZ_MAX_SELECTORS
    requires k == Coding(inUse[..], selectorMtf[..nSelectors], TableValues(len, alphaSize), mtfv)
    requires forall i | 0 <= i < |mtfv| :: 0 <= mtfv[i] < alphaSize
    requires forall i | 0 <= i < nSelectors :: 0 <= selector[i] < |len|
    requires Indices(selectorMtf[..nSelectors], |len|)
             && Selected(selectorMtf[..nSelectors], |len|) == selector[..nSelectors]
    requires CodesAssigned(code, TableValues(len, alphaSize), alphaSize)
    ensures Represents(k, inUse, len, code, selector, selectorMtf, nSelectors, alphaSize, mtfv)
  {
    hide CodesFit, CodesAssigned, Selected, Lengths;
    var sel := selector[..nSelectors];
    forall i | 0 <= i < |mtfv| ensures 0 <= mtfv[i] < alphaSize && i / BZ_G_SIZE < |sel| {
    }
    assert GoodData(k.tables, alphaSize, sel, mtfv);
  }

  lemma SendableFits(lens: seq<int>)
    requires Sendable(lens)
    ensures CodesFit(lens)
  {
  }

  /** Sends the four parts. */
  method Transmit(w: BitWriter, arr1: array<int>, nMTF: int, little: bool, inUse: array<bool>, len: seq<array<int>>,
                  code: seq<array<int>>, selector: array<int>, selectorMtf: array<int>, nSelectors: int, alphaSize: int,
                  ghost k: Coding, ghost mtfv: seq<int>)
    requires w.Valid() && Stored(arr1, nMTF, little, mtfv, alphaSize)
    requires Represents(k, inUse, len, code, selector, selectorMtf, nSelectors, alphaSize, mtfv)
    modifies w
    ensures w.Valid() && w.Written() == old(w.Written()) + CodingBits(k, alphaSize - 2)
    ensures HeldAfter(w.bsLive, LastCode(k))
  {
    hide Half, MappingBits, SelectorBits, TablesFrom, DataFrom, CodesFit, CodesAssigned, ToBits, BytesToBits;
    ghost var w0 := w.Written();
    WriteMapping(w, inUse);
    WriteSelectors(w, selectorMtf, |len|, nSelectors);
    WriteTables(w, len, alphaSize);
    WriteData(w, arr1, nMTF, little, len, code, selector, nSelectors, alphaSize, mtfv);
    FourParts(w0, MappingBits(k.inUse), SelectorBits(k.js, |k.tables|), TablesFrom(k.tables, alphaSize, 0),
              DataFrom(k.tables, alphaSize, selector[..nSelectors], mtfv, 0));
  }

  lemma FourParts(w: seq<bool>, a: seq<bool>, b: seq<bool>, c: seq<bool>, d: seq<bool>)
    ensures w + a + b + c + d == w + (a + b + c + d)
  {
  }

  /** Transmits the symbols of a block: the bits written are the encoding of the mapping table, of selectors for
      every group of 50, of complete prefix-free tables, and of the symbols coded with them. */
  method SendMTFValues(w: BitWriter, arr1: array<int>, mtfFreq: array<int>, nMTF: int, little: bool,
                       inUse: array<bool>, nInUse: int, ghost mtfv: seq<int>) returns (ghost k: Coding)
    requires w.Valid() && inUse.Length == 256 && 1 <= nInUse <= 256 && 0 < nMTF <= 900001
    requires Stored(arr1, nMTF, little, mtfv, nInUse + 2) && nInUse + 1 in mtfv
    requires Counted(mtfFreq[..], mtfv, nInUse + 2)
    modifies w
    ensures w.Valid() && Codes(k, nInUse) && k.inUse == inUse[..] && k.mtfv == mtfv
    ensures w.Written() == old(w.Written()) + CodingBits(k, nInUse)
    ensures Settles(k, nInUse + 2) && HeldAfter(w.bsLive, LastCode(k))
  {
    hide Settles, LastCode, Half, CodingBits, ToBits, BytesToBits, CodesAssigned, GoodData, CodesFit, Lengths, Selected,
         Aligned;
    var len, code, selector, selectorMtf, nSelectors;
    len, code, selector, selectorMtf, nSelectors, k := ChooseCoding(arr1, mtfFreq, nMTF, little, inUse, nInUse, mtfv);
    Transmit(w, arr1, nMTF, little, inUse, len, code, selector, selectorMtf, nSelectors, nInUse + 2, k, mtfv);
  }
}
