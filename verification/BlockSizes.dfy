/** How long an encoded block can be: the room that BZ2_bzCompressInit leaves behind it in arr2. */
module BlockSizes {
  import opened Permutations
  import opened InverseBwt
  import opened Bits
  import opened Huffman
  import opened MoveToFront
  import opened BlockFormat
  import opened MtfEncoder
  import opened RunLength
  import opened StreamFormat
  import MtfSegments
  import MainQuickSort

  /** arr2 has this many bytes, the block in front. */
  function Arr2Size(level: int): int {
    4 * (100000 * level + MainQuickSort.BZ_N_OVERSHOOT)
  }

  // ---- the parts ----

  lemma {:induction false} RangesSize(inUse: seq<bool>, i: nat)
    requires |inUse| == 256 && i <= 16
    ensures |RangesFrom(inUse, i)| <= 16 * (16 - i)
    decreases 16 - i
  {
    if i < 16 { RangesSize(inUse, i + 1); }
  }

  lemma {:induction false} UnariesSize(js: seq<int>, n: int, i: nat)
    requires Indices(js, n) && n <= BZ_N_GROUPS && i <= |js|
    ensures |UnariesFrom(js, i)| <= BZ_N_GROUPS * (|js| - i)
    decreases |js| - i
  {
    if i < |js| { UnariesSize(js, n, i + 1); }
  }

  lemma {:induction false} DeltaSize(c: int, t: int)
    ensures |Delta(c, t)| == 1 + 2 * if c < t then t - c else c - t
    decreases if c < t then t - c else c - t
  {
    if c < t { DeltaSize(c + 1, t); } else if c > t { DeltaSize(c - 1, t); }
  }

  lemma {:induction false} DeltasSize(lens: seq<int>, i: nat, c: int)
    requires Lengths(lens) && i <= |lens| && 1 <= c <= LONGEST_CODE
    ensures |DeltasFrom(lens, i, c)| <= 39 * (|lens| - i)
    decreases |lens| - i
  {
    if i < |lens| {
      DeltaSize(c, lens[i]);
      DeltasSize(lens, i + 1, lens[i]);
    }
  }

  lemma {:induction false} TablesSize(tables: seq<seq<int>>, alphaSize: int, t: nat)
    requires AllLengths(tables, alphaSize) && t <= |tables|
    ensures |TablesFrom(tables, alphaSize, t)| <= (5 + 39 * alphaSize) * (|tables| - t)
    decreases |tables| - t
  {
    if t < |tables| {
      DeltasSize(tables[t], 0, tables[t][0]);
      TablesSize(tables, alphaSize, t + 1);
      OneTable(5 + 39 * alphaSize, |tables| - t);
    }
  }

  lemma OneTable(x: int, n: int)
    ensures x + x * (n - 1) == x * n
  {
  }

  lemma {:induction false} DataSize(tables: seq<seq<int>>, alphaSize: int, sel: seq<int>, mtfv: seq<int>, i: nat)
    requires GoodData(tables, alphaSize, sel, mtfv) && i <= |mtfv|
    ensures |DataFrom(tables, alphaSize, sel, mtfv, i)| <= LONGEST_CODE * (|mtfv| - i)
    decreases |mtfv| - i
  {
    if i < |mtfv| {
      CodeSize(tables[sel[i / BZ_G_SIZE]], mtfv[i]);
      DataSize(tables, alphaSize, sel, mtfv, i + 1);
    }
  }

  lemma CodeSize(lens: seq<int>, i: int)
    requires Lengths(lens) && 0 <= i < |lens|
    ensures |CodeBits(lens, i)| <= LONGEST_CODE
  {
  }

  // ---- the whole ----

  /** There are at most as many symbols as bytes, and the end-of-block symbol. */
  lemma SymbolsCount(mtfv: seq<int>, nums: seq<Byte>, nInUse: int)
    requires IsMtfOf(mtfv, nums, nInUse)
    ensures 1 <= |mtfv| <= |nums| + 1
  {
    hide After, Output;
    OutputGrows(MtfSegments.Identity()[..nInUse], mtfv[..|mtfv| - 1], 0);
  }

  const FIXED_BITS := 61000

  lemma CodingSize(k: Coding, nInUse: int, n: nat)
    requires Codes(k, nInUse) && |k.mtfv| <= n + 1
    ensures |CodingBits(k, nInUse)| <= 21 * n + FIXED_BITS - 105
  {
    hide Selected, Indices, CodesFit, GoodData, RangesFrom, UnariesFrom, TablesFrom, DataFrom;
    CodesParts(k, nInUse);
    var sel, groups := Selected(k.js, |k.tables|), |k.tables|;
    RangesSize(k.inUse, 0);
    UnariesSize(k.js, groups, 0);
    TablesSize(k.tables, nInUse + 2, 0);
    DataSize(k.tables, nInUse + 2, sel, k.mtfv, 0);
    TablesAtMost(nInUse + 2, groups);
  }

  lemma CodesParts(k: Coding, nInUse: int)
    requires Codes(k, nInUse)
    ensures |k.inUse| == 256 && 1 <= nInUse <= 256 && 2 <= |k.tables| <= BZ_N_GROUPS && Indices(k.js, |k.tables|)
    ensures AllLengths(k.tables, nInUse + 2) && GoodData(k.tables, nInUse + 2, Selected(k.js, |k.tables|), k.mtfv)
    ensures Naturals(k.js) && |k.js| == (|k.mtfv| + BZ_G_SIZE - 1) / BZ_G_SIZE
  {
    hide Selected, CodesFit;
  }

  lemma TablesAtMost(alphaSize: int, groups: int)
    requires 1 <= alphaSize <= 258 && 0 <= groups <= BZ_N_GROUPS
    ensures (5 + 39 * alphaSize) * groups <= 10067 * BZ_N_GROUPS
  {
    var x := 5 + 39 * alphaSize;
    assert x * groups <= x * BZ_N_GROUPS;
  }

  /** The bits of a block: at most 21 for each byte of the block, and what does not depend on its size. */
  lemma BlockSize(s: Sealed, level: int)
    requires IsSealed(s, level)
    ensures Codes(s.coding, s.nInUse) && s.origPtr >= 0
    ensures |BlockBits(s)| <= 21 * |BlockOf(s)| + FIXED_BITS
  {
    hide Codes, Used, CodingBits, IsMtfOf, NumberOf, Spelled, Separated, Stored, BytesToBits;
    CodesParts(s.coding, s.nInUse);
    OrderFacts(BlockOf(s), s.order);
    var nums := Numbered(s.coding.inUse, LastColumn(BlockOf(s), s.order));
    SymbolsCount(s.coding.mtfv, nums, s.nInUse);
    CodingSize(s.coding, s.nInUse, |BlockOf(s)|);
  }

  /** With what was left of the bits before, a stream header, a trailer and padding, the block fits behind itself. */
  lemma RoomEnough(level: int, n: nat, bits: nat)
    requires 1 <= level <= 9 && n <= 100000 * level - 10 && bits <= 21 * n + FIXED_BITS + 152
    ensures n + bits / 8 <= Arr2Size(level)
  {
  }
}
