/** The coded symbols of a block: decoding tables for every group, and the symbol-by-symbol reading that
    switches tables every 50 symbols. */
module SymbolReader {
  import opened BitStream
  import opened Huffman
  import opened BlockFormat
  import opened BlockReader

  /** limit, base, perm and the shortest length of one table. */
  datatype Table = Table(limit: seq<int>, base: seq<int>, perm: seq<int>, minLen: int)

  ghost predicate TableFor(t: Table, lens: seq<int>) {
    exists maxLen :: IsTables(t.limit, t.base, t.perm, lens, t.minLen, maxLen)
  }

  ghost predicate TablesFor(tables: seq<Table>, lens: seq<seq<int>>, alphaSize: int) {
    && |tables| == |lens| && AllLengths(lens, alphaSize)
    && forall t | 0 <= t < |lens| :: TableFor(tables[t], lens[t])
  }

  /** Receives the lengths of all tables. */
  method ReadLengths(r: BitReader, nGroups: int, alphaSize: int, ghost want: seq<seq<int>>, ghost bits: seq<bool>,
                     ghost rest: seq<bool>)
    returns (status: Status, len: seq<array<int>>, ghost lens: seq<seq<int>>)
    requires r.Valid() && 0 < alphaSize <= BZ_MAX_ALPHA_SIZE && 0 <= nGroups
    modifies r
    ensures r.Valid() && |len| == |lens| && AllLengths(lens, alphaSize) && !status.Overrun?
    ensures status.Good? ==> |lens| == nGroups && |r.Unread()| <= |old(r.Unread())|
    ensures forall t | 0 <= t < |len| :: fresh(len[t]) && len[t].Length == alphaSize && len[t][..] == lens[t]
    ensures |want| == nGroups && AllLengths(want, alphaSize)
            && Coming(old(r.Unread()), TablesFrom(want, alphaSize, 0) + bits, rest) ==>
              status.Good? && lens == want && Coming(r.Unread(), bits, rest)
  {
    hide TableBits, Coming, TablesFrom, Lengths, IsTail, BitReader.Valid, BitReader.Unread;
    ghost var good := |want| == nGroups && AllLengths(want, alphaSize)
        && Coming(r.Unread(), TablesFrom(want, alphaSize, 0) + bits, rest);
    len, lens := [], [];
    for t := 0 to nGroups
      invariant r.Valid() && |len| == |lens| == t && AllLengths(lens, alphaSize)
      invariant |r.Unread()| <= |old(r.Unread())|
      invariant forall k | 0 <= k < t :: fresh(len[k]) && len[k].Length == alphaSize && len[k][..] == lens[k]
      invariant good ==> lens == want[..t] && Coming(r.Unread(), TablesFrom(want, alphaSize, t) + bits, rest)
    {
      if good { TablesParts(want, alphaSize, t, bits); }
      var table := new int[alphaSize];
      status := ReadTable(r, table, alphaSize, if good then want[t] else [],
                          if good then TablesFrom(want, alphaSize, t + 1) + bits else [], rest);
      if !status.Good? { return; }
      assert table[..] == table[..alphaSize];
      if good { assert want[..t + 1] == want[..t] + [want[t]]; }
      len := len + [table];
      lens := lens + [table[..]];
    }
    if good {
      TablesDone(want, alphaSize, bits);
      assert want[..nGroups] == want;
    }
    status := Good;
  }

  lemma TablesParts(want: seq<seq<int>>, alphaSize: int, t: nat, bits: seq<bool>)
    requires AllLengths(want, alphaSize) && t < |want|
    ensures TablesFrom(want, alphaSize, t) + bits == TableBits(want[t]) + (TablesFrom(want, alphaSize, t + 1) + bits)
  {
    hide TableBits;
  }

  lemma TablesDone(want: seq<seq<int>>, alphaSize: int, bits: seq<bool>)
    requires AllLengths(want, alphaSize)
    ensures TablesFrom(want, alphaSize, |want|) + bits == bits
  {
  }

  /** Creates the decoding tables. */
  method BuildTables(len: seq<array<int>>, alphaSize: int, ghost lens: seq<seq<int>>) returns (tables: seq<Table>)
    requires 0 < alphaSize && |len| == |lens| && AllLengths(lens, alphaSize)
    requires forall t | 0 <= t < |len| :: len[t].Length == alphaSize && len[t][..] == lens[t]
    ensures TablesFor(tables, lens, alphaSize)
  {
    hide Lengths, Extremes, IsTables;
    tables := [];
    for t := 0 to |len|
      invariant |tables| == t && forall k | 0 <= k < t :: TableFor(tables[k], lens[k])
    {
      var limit, base, perm := new int[BZ_MAX_ALPHA_SIZE], new int[BZ_MAX_ALPHA_SIZE], new int[BZ_MAX_ALPHA_SIZE];
      assert len[t][..alphaSize] == lens[t];
      var minLen, maxLen := FindExtremes(len[t], alphaSize);
      CreateDecodeTables(limit, base, perm, len[t], minLen, maxLen, alphaSize);
      assert len[t][..alphaSize] == lens[t];
      tables := tables + [Table(limit[..], base[..], perm[..], minLen)];
    }
  }

  /** The reader stands before symbol i: groupPos symbols of group groupNo are left, coded with table gSel. */
  ghost predicate AtSymbol(lens: seq<seq<int>>, alphaSize: int, sel: seq<int>, mtfv: seq<int>, i: int, groupNo: int,
                           groupPos: int, gSel: int, unread: seq<bool>, bits: seq<bool>, rest: seq<bool>) {
    && GoodData(lens, alphaSize, sel, mtfv) && 0 <= i <= |mtfv|
    && (forall t | 0 <= t < |lens| :: CodesFit(lens[t]))
    && i == BZ_G_SIZE * (groupNo + 1) - groupPos
    && (groupPos > 0 ==> 0 <= groupNo < |sel| && gSel == sel[groupNo])
    && Coming(unread, DataFrom(lens, alphaSize, sel, mtfv, i) + bits, rest)
  }

  /** The data of a block come next. */
  ghost predicate DataComing(lens: seq<seq<int>>, alphaSize: int, sel: seq<int>, mtfv: seq<int>, unread: seq<bool>,
                             bits: seq<bool>, rest: seq<bool>) {
    && GoodData(lens, alphaSize, sel, mtfv) && (forall t | 0 <= t < |lens| :: CodesFit(lens[t]))
    && Coming(unread, DataFrom(lens, alphaSize, sel, mtfv, 0) + bits, rest)
  }

  lemma SymbolStart(lens: seq<seq<int>>, alphaSize: int, sel: seq<int>, mtfv: seq<int>, unread: seq<bool>,
                    bits: seq<bool>, rest: seq<bool>)
    requires DataComing(lens, alphaSize, sel, mtfv, unread, bits, rest)
    ensures AtSymbol(lens, alphaSize, sel, mtfv, 0, -1, 0, 0, unread, bits, rest)
  {
    hide GoodData, CodesFit, DataFrom, Coming, IsTail;
  }

  lemma SymbolEnd(lens: seq<seq<int>>, alphaSize: int, sel: seq<int>, mtfv: seq<int>, groupNo: int, groupPos: int,
                  gSel: int, unread: seq<bool>, bits: seq<bool>, rest: seq<bool>)
    requires AtSymbol(lens, alphaSize, sel, mtfv, |mtfv|, groupNo, groupPos, gSel, unread, bits, rest)
    ensures Coming(unread, bits, rest)
  {
    hide CodesFit, Coming, IsTail;
    assert [] + bits == bits;
  }

  /** At the start of a group its selector exists. */
  lemma GroupStarts(lens: seq<seq<int>>, alphaSize: int, sel: seq<int>, mtfv: seq<int>, i: int, groupNo: int, gSel: int,
                    unread: seq<bool>, bits: seq<bool>, rest: seq<bool>)
    requires AtSymbol(lens, alphaSize, sel, mtfv, i, groupNo, 0, gSel, unread, bits, rest) && i < |mtfv|
             && groupNo >= -1
    ensures groupNo + 1 < |sel|
    ensures AtSymbol(lens, alphaSize, sel, mtfv, i, groupNo + 1, BZ_G_SIZE, sel[groupNo + 1], unread, bits, rest)
  {
    hide CodesFit, Coming, DataFrom, IsTail;
    assert i / BZ_G_SIZE == groupNo + 1;
  }

  lemma BothPrefixes(x: seq<bool>, y: seq<bool>, z: seq<bool>)
    requires x <= z && y <= z
    ensures x <= y || y <= x
  {
    if |x| <= |y| {
      assert x == z[..|x|] == y[..|x|];
    } else {
      assert y == z[..|y|] == x[..|y|];
    }
  }

  /** The table of the current group decodes the symbol that was sent. */
  lemma SymbolFollows(lens: seq<seq<int>>, alphaSize: int, sel: seq<int>, mtfv: seq<int>, i: int, groupNo: int,
                      groupPos: int, gSel: int, unread: seq<bool>, bits: seq<bool>, rest: seq<bool>)
    requires AtSymbol(lens, alphaSize, sel, mtfv, i, groupNo, groupPos, gSel, unread, bits, rest)
    requires i < |mtfv| && 0 < groupPos <= BZ_G_SIZE
    ensures 0 <= gSel < |lens| && Lengths(lens[gSel]) && CodesFit(lens[gSel]) && |lens[gSel]| == alphaSize
    ensures 0 <= mtfv[i] < alphaSize && CodeBits(lens[gSel], mtfv[i]) <= unread
    ensures AtSymbol(lens, alphaSize, sel, mtfv, i + 1, groupNo, groupPos - 1, gSel, unread[lens[gSel][mtfv[i]]..],
                     bits, rest)
  {
    hide CodesFit, Coming, CodeBits, IsTail;
    assert i / BZ_G_SIZE == groupNo;
    var chunk, tail := CodeBits(lens[gSel], mtfv[i]), DataFrom(lens, alphaSize, sel, mtfv, i + 1) + bits;
    assert DataFrom(lens, alphaSize, sel, mtfv, i) + bits == chunk + tail;
    NextBits(unread, chunk, tail, rest);
    assert chunk == unread[..|chunk|];
  }

  /** Whatever symbol is decoded from there is the one that was sent. */
  lemma OnlySymbol(lens: seq<int>, v: int, sym: int, unread: seq<bool>)
    requires Lengths(lens) && CodesFit(lens) && 0 <= v < |lens| && 0 <= sym < |lens|
    requires CodeBits(lens, v) <= unread && CodeBits(lens, sym) <= unread
    ensures v == sym
  {
    hide CodesFit, CodeBits;
    BothPrefixes(CodeBits(lens, v), CodeBits(lens, sym), unread);
    if CodeBits(lens, v) <= CodeBits(lens, sym) {
      PrefixFree(lens, v, sym);
    } else {
      PrefixFree(lens, sym, v);
    }
  }

  /** GET_MTF_VAL. */
  method NextSymbol(r: BitReader, tables: seq<Table>, selector: array<int>, nSelectors: int, groupNo0: int,
                    groupPos0: int, gSel0: int, ghost lens: seq<seq<int>>, ghost alphaSize: int, ghost mtfv: seq<int>,
                    ghost i: nat, ghost bits: seq<bool>, ghost rest: seq<bool>)
    returns (res: Outcome, groupNo: int, groupPos: int, gSel: int)
    requires r.Valid() && TablesFor(tables, lens, alphaSize) && 0 <= nSelectors <= selector.Length
    requires forall k | 0 <= k < nSelectors :: 0 <= selector[k] < |tables|
    requires -1 <= groupNo0 && 0 <= groupPos0 <= BZ_G_SIZE && (groupPos0 > 0 ==> 0 <= gSel0 < |tables|)
    modifies r
    ensures r.Valid() && -1 <= groupNo && 0 <= groupPos <= BZ_G_SIZE && (groupPos > 0 ==> 0 <= gSel < |tables|)
    ensures res.Symbol? ==> 0 <= res.sym < alphaSize && |r.Unread()| < |old(r.Unread())|
    ensures i < |mtfv| && AtSymbol(lens, alphaSize, selector[..nSelectors], mtfv, i, groupNo0, groupPos0, gSel0,
                                   old(r.Unread()), bits, rest) ==>
              res == Symbol(mtfv[i])
              && AtSymbol(lens, alphaSize, selector[..nSelectors], mtfv, i + 1, groupNo, groupPos, gSel, r.Unread(),
                          bits, rest)
  {
    hide AtSymbol, TableFor, CodeBits, CodesFit, Coming, IsTail;
    ghost var sel, u := selector[..nSelectors], r.Unread();
    ghost var good := i < |mtfv| && AtSymbol(lens, alphaSize, sel, mtfv, i, groupNo0, groupPos0, gSel0, u, bits, rest);
    groupNo, groupPos, gSel := groupNo0, groupPos0, gSel0;
    if groupPos == 0 {
      if good { GroupStarts(lens, alphaSize, sel, mtfv, i, groupNo, gSel, u, bits, rest); }
      groupNo := groupNo + 1;
      if groupNo >= nSelectors { return DataError, groupNo, groupPos, gSel; }
      groupPos := BZ_G_SIZE;
      gSel := selector[groupNo];
    }
    if good { SymbolFollows(lens, alphaSize, sel, mtfv, i, groupNo, groupPos, gSel, u, bits, rest); }
    groupPos := groupPos - 1;
    res := DecodeWith(r, tables[gSel], lens[gSel]);
    if good { OnlySymbol(lens[gSel], mtfv[i], res.sym, u); }
  }

  method DecodeWith(r: BitReader, t: Table, ghost lens: seq<int>) returns (res: Outcome)
    requires r.Valid() && TableFor(t, lens)
    modifies r
    ensures r.Valid() && Lengths(lens)
    ensures res.Symbol? ==> 0 <= res.sym < |lens| && CodeBits(lens, res.sym) <= old(r.Unread())
                            && r.Unread() == old(r.Unread())[lens[res.sym]..] && |r.Unread()| < |old(r.Unread())|
    ensures !res.Symbol? && CodesFit(lens) ==> forall i | 0 <= i < |lens| :: !(CodeBits(lens, i) <= old(r.Unread()))
  {
    hide IsTables, CodeBits, CodesFit;
    ghost var maxLen :| IsTables(t.limit, t.base, t.perm, lens, t.minLen, maxLen);
    TableFacts(t.limit, t.base, t.perm, lens, t.minLen, maxLen);
    res := DecodeSymbol(r, t.limit, t.base, t.perm, t.minLen, lens, maxLen);
    if res.Symbol? { CodeLength(lens, res.sym); }
  }

  lemma CodeLength(lens: seq<int>, i: int)
    requires Lengths(lens) && 0 <= i < |lens|
    ensures |CodeBits(lens, i)| == lens[i] >= 1
  {
  }

  /** The symbols of one block, as they come: the input together with the state of the current group. */
  class SymbolSource {
    const r: BitReader
    const tables: seq<Table>
    const selector: array<int>
    const nSelectors: int
    var groupNo: int
    var groupPos: int
    var gSel: int
    ghost const lens: seq<seq<int>>
    ghost const alphaSize: int
    ghost const mtfv: seq<int>
    ghost const bits: seq<bool>
    ghost const rest: seq<bool>

    ghost predicate Valid()
      reads this, r, selector
    {
      && r.Valid() && TablesFor(tables, lens, alphaSize) && 0 <= nSelectors <= selector.Length
      && (forall k | 0 <= k < nSelectors :: 0 <= selector[k] < |tables|)
      && -1 <= groupNo && 0 <= groupPos <= BZ_G_SIZE && (groupPos > 0 ==> 0 <= gSel < |tables|)
    }

    /** What is to be read is symbol i of what was sent, and everything after it. */
    ghost predicate At(i: nat)
      reads this, r, selector
      requires Valid()
    {
      AtSymbol(lens, alphaSize, selector[..nSelectors], mtfv, i, groupNo, groupPos, gSel, r.Unread(), bits, rest)
    }

    constructor (r: BitReader, tables: seq<Table>, selector: array<int>, nSelectors: int, ghost lens: seq<seq<int>>,
                 ghost alphaSize: int, ghost mtfv: seq<int>, ghost bits: seq<bool>, ghost rest: seq<bool>)
      requires r.Valid() && TablesFor(tables, lens, alphaSize) && 0 <= nSelectors <= selector.Length
      requires forall k | 0 <= k < nSelectors :: 0 <= selector[k] < |tables|
      ensures Valid() && this.r == r && this.selector == selector && this.nSelectors == nSelectors
      ensures this.mtfv == mtfv && this.rest == rest && this.alphaSize == alphaSize && this.bits == bits
      ensures DataComing(lens, alphaSize, selector[..nSelectors], mtfv, r.Unread(), bits, rest) ==> At(0)
    {
      this.r, this.tables, this.selector, this.nSelectors := r, tables, selector, nSelectors;
      groupNo, groupPos, gSel := -1, 0, 0;
      this.lens, this.alphaSize, this.mtfv, this.bits, this.rest := lens, alphaSize, mtfv, bits, rest;
      new;
      if DataComing(lens, alphaSize, selector[..nSelectors], mtfv, r.Unread(), bits, rest) {
        SymbolStart(lens, alphaSize, selector[..nSelectors], mtfv, r.Unread(), bits, rest);
      }
    }

    method Next(ghost i: nat) returns (res: Outcome)
      requires Valid()
      modifies this, r
      ensures Valid()
      ensures res.Symbol? ==> 0 <= res.sym < alphaSize && |r.Unread()| < |old(r.Unread())|
      ensures i < |mtfv| && old(At(i)) ==> res == Symbol(mtfv[i]) && At(i + 1)
    {
      hide AtSymbol, TablesFor;
      res, groupNo, groupPos, gSel :=
        NextSymbol(r, tables, selector, nSelectors, groupNo, groupPos, gSel, lens, alphaSize, mtfv, i, bits, rest);
    }

    lemma Done()
      requires Valid() && At(|mtfv|)
      ensures Coming(r.Unread(), bits, rest)
    {
      hide AtSymbol, TablesFor;
      SymbolEnd(lens, alphaSize, selector[..nSelectors], mtfv, groupNo, groupPos, gSel, r.Unread(), bits, rest);
    }
  }
}
