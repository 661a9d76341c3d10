/** The transmitting half of sendMTFValues. */
module BlockWriter {
  import opened Permutations
  import opened Bits
  import opened BitStream
  import opened Huffman
  import opened MoveToFront
  import opened BlockFormat
  import opened MtfEncoder

  method PutBit(w: BitWriter, b: bool)
    requires w.Valid()
    modifies w
    ensures w.Valid() && w.Written() == old(w.Written()) + [b]
  {
    assert ToBits(1, 1) == [true] && ToBits(0, 1) == [false] by { assert ToBits(0, 0) == []; }
    assert Pow2(1) == 2 by { assert Pow2(0) == 1; }
    if b { w.Put(1, 1); } else { w.Put(1, 0); }
  }

  method WriteMapping(w: BitWriter, inUse: array<bool>)
    requires w.Valid() && inUse.Length == 256
    modifies w
    ensures w.Valid() && w.Written() == old(w.Written()) + MappingBits(inUse[..])
  {
    hide BitWriter.Valid, BitWriter.Written, MappingBits, RangesFrom, RangeUsed, RangeFlags, OnItsWay;
    ghost var used, w0 := inUse[..], w.Written();
    ghost var flags, all := RangeFlags(used), MappingBits(used);
    var inUse16 := FindRanges(inUse);
    MappingIs(used);
    Begin(w0, all);
    ghost var ranges := RangesFrom(used, 0);
    for i := 0 to 16
      invariant forall k | 0 <= k < 16 :: inUse16[k] == flags[k]
      invariant w.Valid() && OnItsWay(w0, w.Written(), flags[i..] + ranges, all)
    {
      ghost var wi := w.Written();
      PutBit(w, inUse16[i]);
      assert flags[i..] + ranges == [flags[i]] + (flags[i + 1..] + ranges);
      Advance(w0, wi, [flags[i]], flags[i + 1..] + ranges, all);
    }
    assert flags[16..] + ranges == ranges;
    for i := 0 to 16
      invariant forall k | 0 <= k < 16 :: inUse16[k] == flags[k]
      invariant w.Valid() && OnItsWay(w0, w.Written(), RangesFrom(used, i), all)
    {
      RangesStep(used, i);
      ghost var wi := w.Written();
      if inUse16[i] {
        WriteRange(w, inUse, i);
      }
      ghost var chunk := if flags[i] then used[16 * i..16 * i + 16] else [];
      assert w.Written() == wi + chunk;
      Advance(w0, wi, chunk, RangesFrom(used, i + 1), all);
    }
    RangesEnd(used);
    Arrived(w0, w.Written(), all);
  }

  method FindRanges(inUse: array<bool>) returns (inUse16: array<bool>)
    requires inUse.Length == 256
    ensures fresh(inUse16) && inUse16.Length == 16 && inUse16[..] == RangeFlags(inUse[..])
  {
    hide RangeUsed;
    ghost var used := inUse[..];
    inUse16 := new bool[16];
    for i := 0 to 16
      invariant forall k | 0 <= k < i :: inUse16[k] == RangeUsed(used, k)
    {
      inUse16[i] := false;
      for j := 0 to 16
        invariant inUse16[i] <==> exists c :: 16 * i <= c < 16 * i + j && used[c]
        invariant forall k | 0 <= k < i :: inUse16[k] == RangeUsed(used, k)
      {
        if inUse[i * 16 + j] {
          assert used[16 * i + j];
          inUse16[i] := true;
        }
      }
      RangeUsedIs(used, i);
    }
  }

  method WriteRange(w: BitWriter, inUse: array<bool>, i: int)
    requires w.Valid() && inUse.Length == 256 && 0 <= i < 16
    modifies w
    ensures w.Valid() && w.Written() == old(w.Written()) + inUse[16 * i..16 * i + 16]
  {
    hide BitWriter.Valid, BitWriter.Written;
    ghost var used, w0 := inUse[..], w.Written();
    for j := 0 to 16
      invariant w.Valid() && w.Written() == w0 + used[16 * i..16 * i + j]
    {
      PutBit(w, inUse[i * 16 + j]);
      assert used[16 * i..16 * i + j + 1] == used[16 * i..16 * i + j] + [used[16 * i + j]];
    }
  }

  lemma RangeUsedIs(used: seq<bool>, i: int)
    requires |used| == 256 && 0 <= i < 16
    ensures RangeUsed(used, i) <==> exists c :: 16 * i <= c < 16 * i + 16 && used[c]
  {
  }

  lemma RangesStep(used: seq<bool>, i: nat)
    requires |used| == 256 && i < 16
    ensures RangesFrom(used, i) == (if RangeFlags(used)[i] then used[16 * i..16 * i + 16] else [])
            + RangesFrom(used, i + 1)
  {
  }

  lemma RangesEnd(used: seq<bool>)
    requires |used| == 256
    ensures RangesFrom(used, 16) == []
  {
  }

  lemma MappingIs(used: seq<bool>)
    requires |used| == 256
    ensures MappingBits(used) == RangeFlags(used) + RangesFrom(used, 0)
  {
  }

  /** Computes the move-to-front indices of the selectors. */
  method SelectorIndices(selector: array<int>, selectorMtf: array<int>, nGroups: int, nSelectors: int)
    requires selector != selectorMtf && 1 <= nGroups <= BZ_N_GROUPS
    requires 0 <= nSelectors <= selector.Length && nSelectors <= selectorMtf.Length
    requires forall i | 0 <= i < nSelectors :: 0 <= selector[i] < nGroups
    modifies selectorMtf
    ensures Indices(selectorMtf[..nSelectors], nGroups)
    ensures Selected(selectorMtf[..nSelectors], nGroups) == selector[..nSelectors]
  {
    hide TableList, Selected, ToFront;
    var pos := new int[BZ_N_GROUPS];
    for i := 0 to nGroups
      invariant forall k | 0 <= k < i :: pos[k] == k
    {
      pos[i] := i;
    }
    ghost var list := Iota(nGroups);
    SelectedStart(nGroups);
    for i := 0 to nSelectors
      invariant Indices(selectorMtf[..i], nGroups) && Selected(selectorMtf[..i], nGroups) == selector[..i]
      invariant pos[..nGroups] == list == TableList(selectorMtf[..i], nGroups)
      invariant forall t | 0 <= t < nGroups :: t in list
    {
      ghost var js := selectorMtf[..i];
      var ll := selector[i];
      var j := FindTable(pos, nGroups, ll);
      selectorMtf[i] := j;
      assert selectorMtf[..i + 1] == js + [j];
      assert selector[..i + 1] == selector[..i] + [ll];
      SelectedAppend(js, nGroups, j);
      InFront(list, j);
      list := ToFront(list, j);
    }
  }

  lemma SelectedStart(n: int)
    requires n >= 1
    ensures Selected([], n) == [] && TableList([], n) == Iota(n)
    ensures forall t | 0 <= t < n :: t in Iota(n)
  {
    forall t | 0 <= t < n ensures t in Iota(n) { assert Iota(n)[t] == t; }
  }

  lemma InFront(list: seq<int>, j: nat)
    requires j < |list|
    ensures forall x :: x in list ==> x in ToFront(list, j)
  {
    forall x | x in list ensures x in ToFront(list, j) {
      var k :| 0 <= k < |list| && list[k] == x;
      var k' := if k == j then 0 else if k < j then k + 1 else k;
      assert ToFront(list, j)[k'] == x;
    }
  }

  /** Finds a table in the list and moves it to the front. */
  method FindTable(pos: array<int>, n: int, ll: int) returns (j: int)
    requires pos.Length == BZ_N_GROUPS && 1 <= n <= BZ_N_GROUPS && ll in pos[..n]
    modifies pos
    ensures 0 <= j < n && old(pos[j]) == ll && pos[..n] == ToFront(old(pos[..n]), j)
  {
    hide ToFront;
    ghost var list := pos[..n];
    ghost var at :| 0 <= at < n && list[at] == ll;
    j := 0;
    var tmp := pos[0];
    while ll != tmp
      invariant 0 <= j <= at && tmp == list[j]
      invariant forall k | 1 <= k <= j :: pos[k] == list[k - 1]
      invariant forall k | j < k < n :: pos[k] == list[k]
      decreases at - j
    {
      j := j + 1;
      var tmp2 := tmp;
      tmp := pos[j];
      pos[j] := tmp2;
    }
    pos[0] := tmp;
    MovedToFrontInts(list, j, pos[..n]);
  }

  lemma MovedToFrontInts(list: seq<int>, j: nat, r: seq<int>)
    requires j < |list| == |r| && r[0] == list[j]
    requires forall k | 1 <= k <= j :: r[k] == list[k - 1]
    requires forall k | j < k < |list| :: r[k] == list[k]
    ensures r == ToFront(list, j)
  {
  }

  method WriteSelectors(w: BitWriter, selectorMtf: array<int>, nGroups: int, nSelectors: int)
    requires w.Valid() && 0 <= nSelectors <= selectorMtf.Length && nSelectors < 32768 && 2 <= nGroups <= BZ_N_GROUPS
    requires Naturals(selectorMtf[..nSelectors])
    modifies w
    ensures w.Valid() && w.Written() == old(w.Written()) + SelectorBits(selectorMtf[..nSelectors], nGroups)
  {
    hide UnariesFrom, Unary, OnItsWay, ToBits;
    ghost var js, w0 := selectorMtf[..nSelectors], w.Written();
    ghost var all := SelectorBits(js, nGroups);
    SmallPowers();
    Begin(w0, all);
    assert all == ToBits(nGroups, 3) + (ToBits(nSelectors, 15) + UnariesFrom(js, 0));
    Advance(w0, w0, ToBits(nGroups, 3), ToBits(nSelectors, 15) + UnariesFrom(js, 0), all);
    w.Put(3, nGroups);
    Advance(w0, w.Written(), ToBits(nSelectors, 15), UnariesFrom(js, 0), all);
    w.Put(15, nSelectors);
    for i := 0 to nSelectors
      invariant w.Valid() && OnItsWay(w0, w.Written(), UnariesFrom(js, i), all)
    {
      UnariesStep(js, i);
      Advance(w0, w.Written(), Unary(js[i]), UnariesFrom(js, i + 1), all);
      WriteUnary(w, selectorMtf[i]);
    }
    UnariesEnd(js);
    Arrived(w0, w.Written(), all);
  }

  method WriteUnary(w: BitWriter, n: int)
    requires w.Valid() && n >= 0
    modifies w
    ensures w.Valid() && w.Written() == old(w.Written()) + Unary(n)
  {
    hide BitWriter.Valid, BitWriter.Written;
    ghost var w0 := w.Written();
    for j := 0 to n
      invariant w.Valid() && w.Written() == w0 + Unary(n)[..j]
    {
      PutBit(w, true);
      assert Unary(n)[..j + 1] == Unary(n)[..j] + [true];
    }
    PutBit(w, false);
    assert Unary(n) == Unary(n)[..n] + [false];
  }

  lemma SmallPowers()
    ensures Pow2(3) == 8 && Pow2(5) == 32 && Pow2(15) == 32768
  {
    assert Pow2(3) == 8;
    Pow2Add(5, 5);
    Pow2Add(10, 5);
  }

  lemma UnariesStep(js: seq<int>, i: nat)
    requires Naturals(js) && i < |js|
    ensures UnariesFrom(js, i) == Unary(js[i]) + UnariesFrom(js, i + 1)
  {
  }

  lemma UnariesEnd(js: seq<int>)
    requires Naturals(js)
    ensures UnariesFrom(js, |js|) == []
  {
  }

  /** One coding table. */
  method WriteTable(w: BitWriter, len: array<int>, alphaSize: int)
    requires w.Valid() && 0 < alphaSize <= len.Length && Lengths(len[..alphaSize])
    modifies w
    ensures w.Valid() && w.Written() == old(w.Written()) + TableBits(len[..alphaSize])
  {
    hide Delta, DeltasFrom, OnItsWay, ToBits;
    ghost var lens, w0 := len[..alphaSize], w.Written();
    ghost var all := TableBits(lens);
    SmallPowers();
    var curr := len[0];
    Begin(w0, all);
    Advance(w0, w0, ToBits(lens[0], 5), DeltasFrom(lens, 0, lens[0]), all);
    w.Put(5, curr);
    for i := 0 to alphaSize
      invariant w.Valid() && OnItsWay(w0, w.Written(), DeltasFrom(lens, i, curr), all)
    {
      DeltasStep(lens, i, curr);
      Advance(w0, w.Written(), Delta(curr, lens[i]), DeltasFrom(lens, i + 1, lens[i]), all);
      curr := StepTo(w, curr, len[i]);
    }
    DeltasEnd(lens, curr);
    Arrived(w0, w.Written(), all);
  }

  /** Moves the running length to the next one. */
  method StepTo(w: BitWriter, curr0: int, target: int) returns (curr: int)
    requires w.Valid()
    modifies w
    ensures w.Valid() && curr == target && w.Written() == old(w.Written()) + Delta(curr0, target)
  {
    hide Delta, OnItsWay, ToBits, Pow2;
    curr := curr0;
    ghost var w0, all := w.Written(), Delta(curr0, target);
    TwoBits();
    Begin(w0, all);
    while curr < target
      invariant w.Valid() && (curr <= target || curr == curr0)
      invariant OnItsWay(w0, w.Written(), Delta(curr, target), all)
    {
      DeltaStep(curr, target);
      Advance(w0, w.Written(), [true, false], Delta(curr + 1, target), all);
      w.Put(2, 2);
      curr := curr + 1;
    }
    while curr > target
      invariant w.Valid() && curr >= target
      invariant OnItsWay(w0, w.Written(), Delta(curr, target), all)
    {
      DeltaStep(curr, target);
      Advance(w0, w.Written(), [true, true], Delta(curr - 1, target), all);
      w.Put(2, 3);
      curr := curr - 1;
    }
    DeltaStep(curr, target);
    assert Delta(curr, target) == [false] + [];
    Advance(w0, w.Written(), [false], [], all);
    PutBit(w, false);
    Arrived(w0, w.Written(), all);
  }

  lemma TwoBits()
    ensures Pow2(2) == 4 && ToBits(2, 2) == [true, false] && ToBits(3, 2) == [true, true]
  {
    assert Pow2(2) == 4;
    assert ToBits(1, 0) == [] && ToBits(0, 0) == [];
    assert ToBits(2, 1) == [false] && ToBits(1, 1) == [true];
  }

  lemma DeltaStep(c: int, t: int)
    ensures Delta(c, t) == if c < t then [true, false] + Delta(c + 1, t) else if c > t then
            [true, true] + Delta(c - 1, t) else [false]
  {
  }

  lemma DeltasStep(lens: seq<int>, i: nat, c: int)
    requires i < |lens|
    ensures DeltasFrom(lens, i, c) == Delta(c, lens[i]) + DeltasFrom(lens, i + 1, lens[i])
  {
  }

  lemma DeltasEnd(lens: seq<int>, c: int)
    ensures DeltasFrom(lens, |lens|, c) == []
  {
  }

  /** The tables as values. */
  ghost function TableValues(len: seq<array<int>>, alphaSize: int): (r: seq<seq<int>>)
    requires forall t | 0 <= t < |len| :: 0 <= alphaSize <= len[t].Length
    reads len
    ensures |r| == |len| && forall t | 0 <= t < |len| :: r[t] == len[t][..alphaSize]
  {
    seq(|len|, t requires 0 <= t < |len| reads len => len[t][..alphaSize])
  }

  method WriteTables(w: BitWriter, len: seq<array<int>>, alphaSize: int)
    requires w.Valid() && 0 < alphaSize && forall t | 0 <= t < |len| :: alphaSize <= len[t].Length
    requires AllLengths(TableValues(len, alphaSize), alphaSize)
    modifies w
    ensures w.Valid() && w.Written() == old(w.Written()) + TablesFrom(TableValues(len, alphaSize), alphaSize, 0)
  {
    hide TableBits, TablesFrom, OnItsWay;
    ghost var tables, w0 := TableValues(len, alphaSize), w.Written();
    ghost var all := TablesFrom(tables, alphaSize, 0);
    Begin(w0, all);
    for t := 0 to |len|
      invariant w.Valid() && OnItsWay(w0, w.Written(), TablesFrom(tables, alphaSize, t), all)
    {
      TablesStep(tables, alphaSize, t);
      assert len[t][..alphaSize] == tables[t];
      Advance(w0, w.Written(), TableBits(tables[t]), TablesFrom(tables, alphaSize, t + 1), all);
      WriteTable(w, len[t], alphaSize);
    }
    TablesEnd(tables, alphaSize);
    Arrived(w0, w.Written(), all);
  }

  lemma TablesStep(tables: seq<seq<int>>, alphaSize: int, t: nat)
    requires AllLengths(tables, alphaSize) && t < |tables|
    ensures TablesFrom(tables, alphaSize, t) == TableBits(tables[t]) + TablesFrom(tables, alphaSize, t + 1)
  {
  }

  lemma TablesEnd(tables: seq<seq<int>>, alphaSize: int)
    requires AllLengths(tables, alphaSize)
    ensures TablesFrom(tables, alphaSize, |tables|) == []
  {
  }

  /** The codes of all tables, as AssignCodes left them. */
  ghost predicate CodesAssigned(code: seq<array<int>>, tables: seq<seq<int>>, alphaSize: int)
    requires AllLengths(tables, alphaSize)
    reads code
  {
    && |code| == |tables|
    && forall t | 0 <= t < |code| :: code[t].Length >= alphaSize
         && forall i | 0 <= i < alphaSize :: code[t][i] == Code(tables[t], i)
  }

  /** The data proper: groups of 50 symbols, each coded with its table. The symbols are read from the array
      that still holds what is left of the pointers. */
  method WriteData(w: BitWriter, arr1: array<int>, nMTF: int, little: bool, len: seq<array<int>>, code: seq<array<int>>,
                   selector: array<int>, nSelectors: int, alphaSize: int, ghost mtfv: seq<int>)
    requires w.Valid() && 0 < alphaSize && forall t | 0 <= t < |len| :: alphaSize <= len[t].Length
    requires nMTF == |mtfv| && 0 <= nSelectors <= selector.Length && nSelectors == (nMTF + BZ_G_SIZE - 1) / BZ_G_SIZE
    requires forall i | 0 <= i < nMTF :: i / 2 < arr1.Length && Half(arr1[..], i, little) == mtfv[i]
    requires GoodData(TableValues(len, alphaSize), alphaSize, selector[..nSelectors], mtfv)
    requires forall t | 0 <= t < |len| :: CodesFit(TableValues(len, alphaSize)[t])
    requires CodesAssigned(code, TableValues(len, alphaSize), alphaSize)
    modifies w
    ensures w.Valid()
    ensures w.Written() == old(w.Written())
            + DataFrom(TableValues(len, alphaSize), alphaSize, selector[..nSelectors], mtfv, 0)
    ensures nMTF > 0 ==> HeldAfter(w.bsLive, LastLength(TableValues(len, alphaSize), selector[..nSelectors], mtfv))
  {
    hide BitWriter.Valid, BitWriter.Written, DataFrom, CodeBits, Half, CodesFit, GoodData, CodesAssigned, OnItsWay;
    ghost var tables, sel, w0 := TableValues(len, alphaSize), selector[..nSelectors], w.Written();
    ghost var all := DataFrom(tables, alphaSize, sel, mtfv, 0);
    Begin(w0, all);
    var selCtr, gs := 0, 0;
    while gs < nMTF
      invariant 0 <= gs <= nMTF && gs == (if selCtr * BZ_G_SIZE < nMTF then selCtr * BZ_G_SIZE else nMTF)
                && 0 <= selCtr <= nSelectors
      invariant w.Valid() && OnItsWay(w0, w.Written(), DataFrom(tables, alphaSize, sel, mtfv, gs), all)
      invariant gs == nMTF ==> selCtr == nSelectors
      invariant gs == nMTF && nMTF > 0 ==> HeldAfter(w.bsLive, LastLength(tables, sel, mtfv))
      decreases nMTF - gs
    {
      var ge := gs + BZ_G_SIZE - 1;
      if ge >= nMTF { ge := nMTF - 1; }
      for i := gs to ge + 1
        invariant w.Valid() && OnItsWay(w0, w.Written(), DataFrom(tables, alphaSize, sel, mtfv, i), all)
        invariant i == nMTF ==> HeldAfter(w.bsLive, LastLength(tables, sel, mtfv))
      {
        DataStep(tables, alphaSize, sel, mtfv, i);
        assert i / BZ_G_SIZE == selCtr;
        ghost var t := sel[selCtr];
        Advance(w0, w.Written(), CodeBits(tables[t], mtfv[i]), DataFrom(tables, alphaSize, sel, mtfv, i + 1), all);
        WriteSymbol(w, Half(arr1[..], i, little), len, code, selector[selCtr], alphaSize);
        if i == nMTF - 1 { LastLengthIs(tables, sel, mtfv); }
      }
      gs := ge + 1;
      selCtr := selCtr + 1;
    }
    assert selCtr == nSelectors;   // assertion 3007
    DataEnd(tables, alphaSize, sel, mtfv);
    Arrived(w0, w.Written(), all);
  }

  lemma LastLengthIs(tables: seq<seq<int>>, sel: seq<int>, mtfv: seq<int>)
    requires |mtfv| > 0 && (|mtfv| - 1) / BZ_G_SIZE < |sel| && 0 <= sel[(|mtfv| - 1) / BZ_G_SIZE] < |tables|
    requires 0 <= mtfv[|mtfv| - 1] < |tables[sel[(|mtfv| - 1) / BZ_G_SIZE]]|
    ensures LastLength(tables, sel, mtfv) == tables[sel[(|mtfv| - 1) / BZ_G_SIZE]][mtfv[|mtfv| - 1]]
  {
  }

  /** One symbol with one table. */
  method WriteSymbol(w: BitWriter, v: int, len: seq<array<int>>, code: seq<array<int>>, t: int, alphaSize: int)
    requires w.Valid() && 0 <= v < alphaSize && 0 <= t < |len|
    requires forall t | 0 <= t < |len| :: alphaSize <= len[t].Length
    requires AllLengths(TableValues(len, alphaSize), alphaSize)
    requires CodesFit(TableValues(len, alphaSize)[t])
    requires CodesAssigned(code, TableValues(len, alphaSize), alphaSize)
    modifies w
    ensures w.Valid() && w.Written() == old(w.Written()) + CodeBits(TableValues(len, alphaSize)[t], v)
    ensures HeldAfter(w.bsLive, TableValues(len, alphaSize)[t][v])
  {
    hide CodeBits, Code, CodesFit, CodesAssigned, Lengths;
    ghost var tables := TableValues(len, alphaSize);
    CodeAt(code, tables, alphaSize, t, v);
    assert len[t][v] == tables[t][v];
    LengthAt(tables, alphaSize, t, v);
    KraftMeansFit(tables[t], v);
    CodeBitsIs(tables[t], v);
    w.Put(len[t][v], code[t][v]);
  }

  lemma LengthAt(tables: seq<seq<int>>, alphaSize: int, t: int, v: int)
    requires AllLengths(tables, alphaSize) && 0 <= t < |tables| && 0 <= v < alphaSize
    ensures |tables[t]| == alphaSize && Lengths(tables[t]) && 1 <= tables[t][v] <= LONGEST_CODE
  {
  }

  lemma CodeBitsIs(lens: seq<int>, i: int)
    requires 0 <= i < |lens| && lens[i] >= 0
    ensures CodeBits(lens, i) == ToBits(Code(lens, i), lens[i])
  {
  }

  lemma CodeAt(code: seq<array<int>>, tables: seq<seq<int>>, alphaSize: int, t: int, v: int)
    requires AllLengths(tables, alphaSize) && CodesAssigned(code, tables, alphaSize)
    requires 0 <= t < |tables| && 0 <= v < alphaSize
    ensures |code| == |tables| && v < code[t].Length && |tables[t]| == alphaSize && tables[t][v] >= 0
    ensures code[t][v] == Code(tables[t], v)
  {
  }

  lemma DataStep(tables: seq<seq<int>>, alphaSize: int, sel: seq<int>, mtfv: seq<int>, i: nat)
    requires GoodData(tables, alphaSize, sel, mtfv) && i < |mtfv|
    ensures AllLengths(tables, alphaSize) && 0 <= mtfv[i] < alphaSize && i / BZ_G_SIZE < |sel|
    ensures 0 <= sel[i / BZ_G_SIZE] < |tables| && |tables[sel[i / BZ_G_SIZE]]| == alphaSize
    ensures tables[sel[i / BZ_G_SIZE]][mtfv[i]] >= 1
    ensures DataFrom(tables, alphaSize, sel, mtfv, i)
         == CodeBits(tables[sel[i / BZ_G_SIZE]], mtfv[i]) + DataFrom(tables, alphaSize, sel, mtfv, i + 1)
  {
  }

  lemma DataEnd(tables: seq<seq<int>>, alphaSize: int, sel: seq<int>, mtfv: seq<int>)
    requires GoodData(tables, alphaSize, sel, mtfv)
    ensures DataFrom(tables, alphaSize, sel, mtfv, |mtfv|) == []
  {
  }
}
