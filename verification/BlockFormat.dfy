/** The bit format of a block after its header fields: mapping table, selectors, coding tables, data. */
module BlockFormat {
  import opened Permutations
  import opened Bits
  import opened Huffman
  import opened MoveToFront

  const BZ_N_GROUPS := 6
  const BZ_G_SIZE := 50
  const BZ_MAX_SELECTORS := 2 + 900000 / BZ_G_SIZE

  // ---- keeping track of what is on its way ----

  /** done has been transmitted after what came before, and rest is still to come: together, all. */
  ghost predicate OnItsWay(before: seq<bool>, done: seq<bool>, rest: seq<bool>, all: seq<bool>) {
    done + rest == before + all
  }

  lemma Begin(before: seq<bool>, all: seq<bool>)
    ensures OnItsWay(before, before, all, all)
  {
  }

  lemma Advance(before: seq<bool>, done: seq<bool>, chunk: seq<bool>, rest: seq<bool>, all: seq<bool>)
    requires OnItsWay(before, done, chunk + rest, all)
    ensures OnItsWay(before, done + chunk, rest, all)
  {
    assert done + (chunk + rest) == (done + chunk) + rest;
  }

  lemma Arrived(before: seq<bool>, done: seq<bool>, all: seq<bool>)
    requires OnItsWay(before, done, [], all)
    ensures done == before + all
  {
    assert done + [] == done;
  }

  // ---- the mapping table: which of 16 ranges of bytes are used, then the ranges that are ----

  ghost predicate RangeUsed(inUse: seq<bool>, i: int)
    requires |inUse| == 256 && 0 <= i < 16
  {
    exists c :: 16 * i <= c < 16 * i + 16 && inUse[c]
  }

  ghost function RangeFlags(inUse: seq<bool>): (r: seq<bool>)
    requires |inUse| == 256
    ensures |r| == 16
  {
    seq(16, i requires 0 <= i < 16 => RangeUsed(inUse, i))
  }

  ghost function RangesFrom(inUse: seq<bool>, i: nat): seq<bool>
    requires |inUse| == 256 && i <= 16
    decreases 16 - i
  {
    if i == 16 then []
    else (if RangeUsed(inUse, i) then inUse[16 * i..16 * i + 16] else []) + RangesFrom(inUse, i + 1)
  }

  ghost function MappingBits(inUse: seq<bool>): seq<bool>
    requires |inUse| == 256
  {
    RangeFlags(inUse) + RangesFrom(inUse, 0)
  }

  // ---- the selectors, as indices into a move-to-front list of tables ----

  ghost function Unary(j: nat): (r: seq<bool>)
    ensures |r| == j + 1 && r[j] == false && forall i | 0 <= i < j :: r[i] == true
  {
    seq(j, _ => true) + [false]
  }

  ghost predicate Naturals(js: seq<int>) {
    forall i | 0 <= i < |js| :: js[i] >= 0
  }

  ghost function UnariesFrom(js: seq<int>, i: nat): seq<bool>
    requires Naturals(js) && i <= |js|
    decreases |js| - i
  {
    if i == |js| then [] else Unary(js[i]) + UnariesFrom(js, i + 1)
  }

  ghost predicate Indices(js: seq<int>, n: int) {
    n >= 1 && forall i | 0 <= i < |js| :: 0 <= js[i] < n
  }

  /** The list of tables after a sequence of indices... */
  ghost function TableList(js: seq<int>, n: int): (list: seq<int>)
    requires Indices(js, n)
    ensures |list| == n
  {
    if js == [] then Iota(n) else ToFront(TableList(js[..|js| - 1], n), js[|js| - 1])
  }

  /** ... and the tables they select. */
  ghost function Selected(js: seq<int>, n: int): (r: seq<int>)
    requires Indices(js, n)
    ensures |r| == |js|
  {
    if js == [] then []
    else Selected(js[..|js| - 1], n) + [TableList(js[..|js| - 1], n)[js[|js| - 1]]]
  }

  lemma SelectedAppend(js: seq<int>, n: int, j: int)
    requires Indices(js, n) && 0 <= j < n
    ensures Indices(js + [j], n)
    ensures TableList(js + [j], n) == ToFront(TableList(js, n), j)
    ensures Selected(js + [j], n) == Selected(js, n) + [TableList(js, n)[j]]
  {
    assert (js + [j])[..|js|] == js;
  }

  ghost function SelectorBits(js: seq<int>, n: nat): seq<bool>
    requires Naturals(js)
  {
    ToBits(n, 3) + ToBits(|js|, 15) + UnariesFrom(js, 0)
  }

  // ---- the coding tables, as differences ----

  /** From length c to length t in steps of one, then a zero. */
  ghost function Delta(c: int, t: int): seq<bool>
    decreases if c < t then t - c else c - t
  {
    if c < t then [true, false] + Delta(c + 1, t)
    else if c > t then [true, true] + Delta(c - 1, t)
    else [false]
  }

  ghost function DeltasFrom(lens: seq<int>, i: nat, c: int): seq<bool>
    requires i <= |lens|
    decreases |lens| - i
  {
    if i == |lens| then [] else Delta(c, lens[i]) + DeltasFrom(lens, i + 1, lens[i])
  }

  ghost function TableBits(lens: seq<int>): seq<bool>
    requires Lengths(lens)
  {
    ToBits(lens[0], 5) + DeltasFrom(lens, 0, lens[0])
  }

  ghost predicate AllLengths(tables: seq<seq<int>>, alphaSize: int) {
    forall t | 0 <= t < |tables| :: |tables[t]| == alphaSize && Lengths(tables[t])
  }

  ghost function TablesFrom(tables: seq<seq<int>>, alphaSize: int, t: nat): seq<bool>
    requires AllLengths(tables, alphaSize) && t <= |tables|
    decreases |tables| - t
  {
    if t == |tables| then [] else TableBits(tables[t]) + TablesFrom(tables, alphaSize, t + 1)
  }

  // ---- the data: groups of 50 symbols share a table ----

  ghost predicate GoodData(tables: seq<seq<int>>, alphaSize: int, sel: seq<int>, mtfv: seq<int>) {
    && AllLengths(tables, alphaSize)
    && (forall i | 0 <= i < |sel| :: 0 <= sel[i] < |tables|)
    && (forall i | 0 <= i < |mtfv| :: 0 <= mtfv[i] < alphaSize && i / BZ_G_SIZE < |sel|)
  }

  ghost function DataFrom(tables: seq<seq<int>>, alphaSize: int, sel: seq<int>, mtfv: seq<int>, i: nat): seq<bool>
    requires GoodData(tables, alphaSize, sel, mtfv) && i <= |mtfv|
    decreases |mtfv| - i
  {
    if i == |mtfv| then []
    else CodeBits(tables[sel[i / BZ_G_SIZE]], mtfv[i]) + DataFrom(tables, alphaSize, sel, mtfv, i + 1)
  }

  // ---- the whole ----

  /** Everything sendMTFValues transmits. */
  datatype Coding = Coding(inUse: seq<bool>, js: seq<int>, tables: seq<seq<int>>, mtfv: seq<int>)

  ghost predicate Codes(k: Coding, nInUse: int) {
    && |k.inUse| == 256 && 1 <= nInUse <= 256
    && 2 <= |k.tables| <= BZ_N_GROUPS && 1 <= |k.js| <= BZ_MAX_SELECTORS
    && Indices(k.js, |k.tables|)
    && GoodData(k.tables, nInUse + 2, Selected(k.js, |k.tables|), k.mtfv)
    && (forall t | 0 <= t < |k.tables| :: CodesFit(k.tables[t]))
    && |k.js| == (|k.mtfv| + BZ_G_SIZE - 1) / BZ_G_SIZE
  }

  /** How long the code of the last symbol is. */
  ghost function LastLength(tables: seq<seq<int>>, sel: seq<int>, mtfv: seq<int>): int {
    var i := |mtfv| - 1;
    if i >= 0 && i / BZ_G_SIZE < |sel| && 0 <= sel[i / BZ_G_SIZE] < |tables|
       && 0 <= mtfv[i] < |tables[sel[i / BZ_G_SIZE]]| then tables[sel[i / BZ_G_SIZE]][mtfv[i]]
    else 0
  }

  /** The length of the code that ends the block. */
  ghost function LastCode(k: Coding): int {
    if Indices(k.js, |k.tables|) then LastLength(k.tables, Selected(k.js, |k.tables|), k.mtfv) else 0
  }

  ghost function CodingBits(k: Coding, nInUse: int): seq<bool>
    requires Codes(k, nInUse)
  {
    MappingBits(k.inUse) + SelectorBits(k.js, |k.tables|) + TablesFrom(k.tables, nInUse + 2, 0)
    + DataFrom(k.tables, nInUse + 2, Selected(k.js, |k.tables|), k.mtfv, 0)
  }
}
