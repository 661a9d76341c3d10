/** generateMTFValues: the last column becomes move-to-front indices and run digits, written as 16-bit values
    over the very array the sorted pointers are still being read from. */
module MtfEncoder {
  import opened Permutations
  import opened RunLength
  import opened MoveToFront
  import opened CopyScan
  import opened InverseBwt
  import MtfSegments
  import Huffman

  // ---- the bytes in use ----

  /** The used bytes below c, in order. */
  ghost function Used(inUse: seq<bool>, c: nat): (r: seq<Byte>)
    requires |inUse| == 256 && c <= 256
    ensures |r| <= c && forall i | 0 <= i < |r| :: r[i] < c
  {
    if c == 0 then [] else if inUse[c - 1] then Used(inUse, c - 1) + [c - 1] else Used(inUse, c - 1)
  }

  lemma {:induction false} UsedPrefix(inUse: seq<bool>, c: nat, c': nat)
    requires |inUse| == 256 && c <= c' <= 256
    ensures |Used(inUse, c)| <= |Used(inUse, c')| && Used(inUse, c')[..|Used(inUse, c)|] == Used(inUse, c)
    decreases c'
  {
    if c < c' { UsedPrefix(inUse, c, c' - 1); }
  }

  /** A used byte stands at its own number. */
  lemma UsedAt(inUse: seq<bool>, c: nat)
    requires |inUse| == 256 && c < 256 && inUse[c]
    ensures |Used(inUse, c)| < |Used(inUse, 256)| && Used(inUse, 256)[|Used(inUse, c)|] == c
  {
    UsedPrefix(inUse, c + 1, 256);
    var r := Used(inUse, c + 1);
    assert Used(inUse, 256)[..|r|][|r| - 1] == r[|r| - 1];
  }

  /** makeMaps_e: numbers the used bytes. */
  method MakeMapsE(inUse: array<bool>, unseqToSeq: array<Byte>) returns (nInUse: int)
    requires inUse.Length == 256 == unseqToSeq.Length
    modifies unseqToSeq
    ensures nInUse == |Used(inUse[..], 256)|
    ensures forall c | 0 <= c < 256 && inUse[c] :: unseqToSeq[c] == |Used(inUse[..], c)|
  {
    nInUse := 0;
    for i := 0 to 256
      invariant nInUse == |Used(inUse[..], i)|
      invariant forall c | 0 <= c < i && inUse[c] :: unseqToSeq[c] == |Used(inUse[..], c)|
    {
      if inUse[i] {
        unseqToSeq[i] := nInUse;
        nInUse := nInUse + 1;
      }
    }
  }

  /** makeMaps_d: the decoder's table back from numbers to bytes. */
  method MakeMapsD(inUse: array<bool>, seqToUnseq: array<Byte>) returns (nInUse: int)
    requires inUse.Length == 256 == seqToUnseq.Length
    modifies seqToUnseq
    ensures nInUse == |Used(inUse[..], 256)|
    ensures seqToUnseq[..nInUse] == Used(inUse[..], 256)
  {
    nInUse := 0;
    for i := 0 to 256
      invariant 0 <= nInUse <= i && seqToUnseq[..nInUse] == Used(inUse[..], i)
    {
      if inUse[i] {
        seqToUnseq[nInUse] := i;
        nInUse := nInUse + 1;
      }
    }
  }

  /** The column with every byte replaced by its number. */
  ghost function Numbered(inUse: seq<bool>, col: seq<Byte>): (r: seq<Byte>)
    requires |inUse| == 256
    ensures |r| == |col|
  {
    seq(|col|, i requires 0 <= i < |col| => NumberOf(inUse, col[i]))
  }

  ghost function NumberOf(inUse: seq<bool>, c: Byte): Byte
    requires |inUse| == 256
  {
    |Used(inUse, c)|
  }

  /** And back again. */
  lemma NumberedBack(inUse: seq<bool>, col: seq<Byte>, i: int)
    requires |inUse| == 256 && 0 <= i < |col| && inUse[col[i]]
    ensures Numbered(inUse, col)[i] < |Used(inUse, 256)|
    ensures Used(inUse, 256)[Numbered(inUse, col)[i]] == col[i]
  {
    hide Used;
    UsedAt(inUse, col[i]);
  }

  // ---- mtfv laid over ptr ----

  /** Value w of a 16-bit array that shares its storage with the 32-bit words. */
  function Half(words: seq<int>, w: int, little: bool): int
    requires 0 <= w / 2 < |words|
  {
    if (w % 2 == 0) == little then words[w / 2] % 65536 else words[w / 2] / 65536
  }

  method SetHalf(words: array<int>, w: int, v: int, little: bool)
    requires 0 <= w / 2 < words.Length && 0 <= v < 65536
    modifies words
    ensures Half(words[..], w, little) == v
    ensures forall k | 0 <= k < words.Length && k != w / 2 :: words[k] == old(words[k])
    ensures forall k | 0 <= k / 2 < words.Length && k != w ::
              Half(words[..], k, little) == old(Half(words[..], k, little))
  {
    var word := words[w / 2];
    words[w / 2] := if (w % 2 == 0) == little then word - word % 65536 + v else v * 65536 + word % 65536;
    forall k | 0 <= k / 2 < words.Length && k != w
      ensures Half(words[..], k, little) == old(Half(words[..], k, little))
    {
      if k / 2 == w / 2 { assert k % 2 != w % 2; }
    }
  }

  /** The first |syms| values are written, and the pointers from i on are still there. */
  ghost predicate Overlaid(words: seq<int>, p: seq<int>, syms: seq<int>, i: int, little: bool) {
    && |words| == |p| > 0 && |syms| <= i <= |p| + 1
    && (forall w | 0 <= w < |syms| :: w / 2 < |words| && Half(words, w, little) == syms[w])
    && (forall k | i <= k < |p| :: words[k] == p[k])
  }

  /** Value |syms| lies in a word whose pointer is no longer needed. */
  lemma OverlaidStep(words: seq<int>, words': seq<int>, p: seq<int>, syms: seq<int>, i: int, little: bool, v: int)
    requires Overlaid(words, p, syms, i, little) && |syms| < i && |words'| == |words|
    requires |syms| / 2 < |words| && Half(words', |syms|, little) == v
    requires forall k | 0 <= k < |words| && k != |syms| / 2 :: words'[k] == words[k]
    requires forall k | 0 <= k / 2 < |words| && k != |syms| :: Half(words', k, little) == Half(words, k, little)
    ensures Overlaid(words', p, syms + [v], i, little)
  {
    hide Half;
  }

  /** The frequencies of the symbols below alphaSize. */
  ghost predicate Counted(freq: seq<int>, syms: seq<int>, alphaSize: int) {
    && |freq| == Huffman.BZ_MAX_ALPHA_SIZE && alphaSize <= Huffman.BZ_MAX_ALPHA_SIZE
    && forall v | 0 <= v < alphaSize :: freq[v] == multiset(syms)[v]
  }

  lemma CountedStep(freq: seq<int>, syms: seq<int>, alphaSize: int, v: int)
    requires Counted(freq, syms, alphaSize) && 0 <= v < alphaSize
    ensures Counted(freq[v := freq[v] + 1], syms + [v], alphaSize)
  {
  }

  /** mtfv[wr] = v; wr++; mtfFreq[v]++. */
  method PutSymbol(arr1: array<int>, mtfFreq: array<int>, wr: int, v: int, little: bool,
                   ghost p: seq<int>, ghost syms: seq<int>, ghost i: int, ghost alphaSize: int)
    requires arr1 != mtfFreq && 0 <= v < alphaSize
    requires Overlaid(arr1[..], p, syms, i, little) && wr == |syms| < i && Counted(mtfFreq[..], syms, alphaSize)
    modifies arr1, mtfFreq
    ensures Overlaid(arr1[..], p, syms + [v], i, little) && Counted(mtfFreq[..], syms + [v], alphaSize)
  {
    ghost var words, freq := arr1[..], mtfFreq[..];
    SetHalf(arr1, wr, v, little);
    OverlaidStep(words, arr1[..], p, syms, i, little, v);
    mtfFreq[v] := mtfFreq[v] + 1;
    assert mtfFreq[..] == freq[v := freq[v] + 1];
    CountedStep(freq, syms, alphaSize, v);
  }

  // ---- runs of zeros ----

  /** The digits written so far and the value still to be written make up the run. */
  ghost predicate RunInProgress(start: seq<Byte>, syms: seq<int>, list: seq<Byte>, out: seq<Byte>, run: int,
                                left: int) {
    && Symbols(start, syms) && left >= 0
    && var d := After(start, syms); d.list == list && d.out == out && d.run + d.weight * left == run
  }

  lemma DigitStep(start: seq<Byte>, syms: seq<int>, list: seq<Byte>, out: seq<Byte>, run: int, left: int)
    requires RunInProgress(start, syms, list, out, run, left) && left > 0
    ensures var digit := if (left - 1) % 2 == 1 then RUNB else RUNA;
      RunInProgress(start, syms + [digit], list, out, run, (left - 1) / 2)
  {
    hide After;
    var digit, d := if (left - 1) % 2 == 1 then RUNB else RUNA, After(start, syms);
    AfterAppend(start, syms, digit);
    var half := (left - 1) / 2;
    assert left == 2 * half + if digit == RUNB then 2 else 1;
    Distribute(d.weight, half);
  }

  lemma Distribute(w: int, h: int)
    ensures w * (2 * h + 2) == (2 * w) * h + 2 * w
    ensures w * (2 * h + 1) == (2 * w) * h + w
  {
  }

  /** There are never more symbols than bytes they stand for. */
  lemma RunLeavesRoom(start: seq<Byte>, syms: seq<int>, list: seq<Byte>, out: seq<Byte>, run: int, left: int)
    requires RunInProgress(start, syms, list, out, run, left)
    ensures |syms| <= |out| + run
    ensures left > 0 ==> |syms| < |out| + run
  {
    OutputGrows(start, syms, 0);
    assert syms[..0] == [];
    WeightBounded(start, syms);
    var d := After(start, syms);
    if left > 0 { assert d.weight * left >= 1 by { MulPositive(d.weight, left); } }
    if left == 0 { assert d.weight * left == 0; }
  }

  lemma MulPositive(x: int, y: int)
    requires x > 0 && y > 0
    ensures x * y >= 1
  {
  }

  /** Writes a pending run of zeros as its bijective base-two digits, lowest first. */
  method PutRun(arr1: array<int>, mtfFreq: array<int>, wr0: int, zPend0: int, little: bool,
                ghost p: seq<int>, ghost syms0: seq<int>, ghost i: int,
                ghost start: seq<Byte>, ghost list: seq<Byte>, ghost out: seq<Byte>, ghost alphaSize: int)
    returns (wr: int, ghost syms: seq<int>)
    requires arr1 != mtfFreq && zPend0 > 0 && alphaSize >= 2
    requires Overlaid(arr1[..], p, syms0, i, little) && wr0 == |syms0| && Counted(mtfFreq[..], syms0, alphaSize)
    requires RunInProgress(start, syms0, list, out, zPend0, zPend0) && |out| + zPend0 <= i
    modifies arr1, mtfFreq
    ensures Overlaid(arr1[..], p, syms, i, little) && wr == |syms| && Counted(mtfFreq[..], syms, alphaSize)
    ensures RunInProgress(start, syms, list, out, zPend0, 0)
    ensures |syms| <= |out| + zPend0
  {
    hide RunInProgress, Overlaid, Counted;
    wr, syms := wr0, syms0;
    var zPend := zPend0 - 1;
    while true
      invariant zPend >= 0 && wr == |syms|
      invariant Overlaid(arr1[..], p, syms, i, little) && Counted(mtfFreq[..], syms, alphaSize)
      invariant RunInProgress(start, syms, list, out, zPend0, zPend + 1)
      decreases zPend
    {
      RunLeavesRoom(start, syms, list, out, zPend0, zPend + 1);
      DigitStep(start, syms, list, out, zPend0, zPend + 1);
      ghost var digit := if zPend % 2 == 1 then RUNB else RUNA;
      if zPend % 2 == 1 {
        PutSymbol(arr1, mtfFreq, wr, RUNB, little, p, syms, i, alphaSize);
      } else {
        PutSymbol(arr1, mtfFreq, wr, RUNA, little, p, syms, i, alphaSize);
      }
      wr := wr + 1;
      syms := syms + [digit];
      if zPend < 2 { break; }
      zPend := (zPend - 2) / 2;
    }
    RunLeavesRoom(start, syms, list, out, zPend0, 0);
  }

  // ---- other indices ----

  /** Finds a byte that is in the list but not at its front, moving everything before it up. */
  method FindAndMove(yy: array<Byte>, m: int, c: Byte) returns (j: int)
    requires yy.Length == 256 && 1 < m <= 256
    requires c in yy[..m] && yy[0] != c
    modifies yy
    ensures 1 <= j < m && old(yy[j]) == c
    ensures yy[..m] == ToFront(old(yy[..m]), j)
  {
    hide ToFront;
    ghost var list := yy[..m];
    ghost var at :| 0 <= at < m && list[at] == c;
    var rtmp := yy[1];
    yy[1] := yy[0];
    j := 1;
    while c != rtmp
      invariant 1 <= j <= at && rtmp == list[j]
      invariant yy[0] == list[0]
      invariant forall k | 1 <= k <= j :: yy[k] == list[k - 1]
      invariant forall k | j < k < m :: yy[k] == list[k]
      decreases at - j
    {
      j := j + 1;
      var rtmp2 := rtmp;
      rtmp := yy[j];
      yy[j] := rtmp2;
    }
    yy[0] := rtmp;
    MovedToFront(list, j, yy[..m]);
  }

  lemma MovedToFront(list: seq<Byte>, j: nat, r: seq<Byte>)
    requires j < |list| == |r| && r[0] == list[j]
    requires forall k | 1 <= k <= j :: r[k] == list[k - 1]
    requires forall k | j < k < |list| :: r[k] == list[k]
    ensures r == ToFront(list, j)
  {
  }

  // ---- the whole column ----

  /** After i bytes, the last zPend of which equal the front of the list and are not yet written. */
  ghost predicate Encoding(start: seq<Byte>, syms: seq<int>, list: seq<Byte>, nums: seq<Byte>, i: int, zPend: int) {
    && Symbols(start, syms) && 0 <= zPend <= i <= |nums|
    && |list| == |start| && (forall x | x in start :: x in list)
    && After(start, syms) == Decoding(list, nums[..i - zPend], 0, 1)
    && forall k | i - zPend <= k < i :: nums[k] == list[0]
  }

  /** The symbols decode to the numbers, and are followed by the end of the block. */
  ghost predicate IsMtfOf(mtfv: seq<int>, nums: seq<Byte>, nInUse: int) {
    && 0 < nInUse <= 256 && |mtfv| > 0 && mtfv[|mtfv| - 1] == nInUse + 1
    && var syms := mtfv[..|mtfv| - 1];
    && Symbols(MtfSegments.Identity()[..nInUse], syms)
    && Output(After(MtfSegments.Identity()[..nInUse], syms)) == nums
  }

  lemma EncodingRun(start: seq<Byte>, syms: seq<int>, list: seq<Byte>, nums: seq<Byte>, i: int, zPend: int)
    requires Encoding(start, syms, list, nums, i, zPend)
    ensures RunInProgress(start, syms, list, nums[..i - zPend], zPend, zPend)
    ensures list != [] && |syms| <= i - zPend
  {
    assert RunInProgress(start, syms, list, nums[..i - zPend], 0, 0);
    RunLeavesRoom(start, syms, list, nums[..i - zPend], 0, 0);
  }

  lemma EncodingZero(start: seq<Byte>, syms: seq<int>, list: seq<Byte>, nums: seq<Byte>, i: int, zPend: int)
    requires Encoding(start, syms, list, nums, i, zPend) && i < |nums| && nums[i] == list[0]
    ensures Encoding(start, syms, list, nums, i + 1, zPend + 1)
  {
  }

  /** A written run stands for the bytes that were pending. */
  lemma RunWritten(start: seq<Byte>, syms0: seq<int>, syms: seq<int>, list: seq<Byte>, nums: seq<Byte>, i: int,
                   zPend: int)
    requires Encoding(start, syms0, list, nums, i, zPend)
    requires RunInProgress(start, syms, list, nums[..i - zPend], zPend, 0)
    ensures After(start, syms).list == list && Output(After(start, syms)) == nums[..i]
  {
    assert After(start, syms).run == zPend by { assert After(start, syms).weight * 0 == 0; }
    assert nums[..i] == nums[..i - zPend] + Rep(list[0], zPend);
  }

  lemma EncodingIndex(start: seq<Byte>, syms: seq<int>, list: seq<Byte>, nums: seq<Byte>, i: int, j: int)
    requires 0 <= i < |nums| && 1 <= j < |list| && nums[i] == list[j]
    requires Symbols(start, syms) && After(start, syms).list == list && Output(After(start, syms)) == nums[..i]
    requires forall x | x in start :: x in list
    ensures Encoding(start, syms + [j + 1], ToFront(list, j), nums, i + 1, 0)
  {
    hide ToFront, After, Output;
    AfterAppend(start, syms, j + 1);
    assert nums[..i + 1] == nums[..i] + [list[j]];
    forall x | x in start ensures x in ToFront(list, j) { FrontHolds(list, j, x); }
  }

  lemma FrontHolds(list: seq<Byte>, j: nat, x: Byte)
    requires j < |list| && x in list
    ensures x in ToFront(list, j)
  {
    hide ToFront;
    var k :| 0 <= k < |list| && list[k] == x;
    assert ToFront(list, j)[if k == j then 0 else if k < j then k + 1 else k] == x;
  }

  /** The list of numbers, each at its own place. */
  method InitList(yy: array<Byte>, m: int)
    requires yy.Length == 256 && 0 <= m <= 256
    modifies yy
    ensures yy[..m] == MtfSegments.Identity()[..m]
  {
    for i := 0 to m
      invariant forall k | 0 <= k < i :: yy[k] == k
    {
      yy[i] := i;
    }
  }

  /** Before any other symbol the pending run is written. */
  method FlushRun(arr1: array<int>, mtfFreq: array<int>, wr0: int, zPend: int, little: bool, m: int, ghost p: seq<int>,
                  ghost syms0: seq<int>, ghost start: seq<Byte>, ghost list: seq<Byte>, ghost nums: seq<Byte>,
                  ghost i: int)
    returns (wr: int, ghost syms: seq<int>)
    requires arr1 != mtfFreq && m > 0 && wr0 == |syms0|
    requires Overlaid(arr1[..], p, syms0, i + 1, little) && Counted(mtfFreq[..], syms0, m + 2)
    requires Encoding(start, syms0, list, nums, i, zPend)
    modifies arr1, mtfFreq
    ensures Overlaid(arr1[..], p, syms, i + 1, little) && Counted(mtfFreq[..], syms, m + 2)
    ensures wr == |syms| <= i
    ensures Symbols(start, syms) && After(start, syms).list == list && list != []
            && Output(After(start, syms)) == nums[..i]
  {
    hide Overlaid, Counted, RunInProgress, Output;
    wr, syms := wr0, syms0;
    EncodingRun(start, syms, list, nums, i, zPend);
    if zPend > 0 {
      wr, syms := PutRun(arr1, mtfFreq, wr, zPend, little, p, syms, i + 1, start, list, nums[..i - zPend], m + 2);
      RunIsSymbols(start, syms, list, nums[..i - zPend], zPend);
    }
    RunWritten(start, syms0, syms, list, nums, i, zPend);
  }

  /** One byte of the column, given as its number. */
  method EncodeByte(arr1: array<int>, yy: array<Byte>, mtfFreq: array<int>, wr0: int, zPend0: int, c: Byte,
                    little: bool, m: int, ghost p: seq<int>, ghost syms0: seq<int>, ghost start: seq<Byte>,
                    ghost nums: seq<Byte>, ghost i: int)
    returns (wr: int, zPend: int, ghost syms: seq<int>)
    requires arr1 != mtfFreq && yy as object != arr1 && yy as object != mtfFreq && yy.Length == 256
    requires 0 < m == |start| <= 256 && 0 <= i < |nums| == |p| && c == nums[i] && c in start
    requires Overlaid(arr1[..], p, syms0, i + 1, little) && wr0 == |syms0| && Counted(mtfFreq[..], syms0, m + 2)
    requires Encoding(start, syms0, yy[..m], nums, i, zPend0)
    modifies arr1, yy, mtfFreq
    ensures Overlaid(arr1[..], p, syms, i + 1, little) && wr == |syms| && Counted(mtfFreq[..], syms, m + 2)
    ensures Encoding(start, syms, yy[..m], nums, i + 1, zPend)
  {
    hide Overlaid, Counted, RunInProgress, Output, After, Encoding;
    wr, zPend, syms := wr0, zPend0, syms0;
    ghost var list := yy[..m];
    EncodingRun(start, syms, list, nums, i, zPend);
    EncodingList(start, syms, list, nums, i, zPend);
    if yy[0] == c {
      EncodingZero(start, syms, list, nums, i, zPend);
      zPend := zPend + 1;
    } else {
      wr, syms := FlushRun(arr1, mtfFreq, wr, zPend, little, m, p, syms, start, list, nums, i);
      zPend := 0;
      ghost var words, freq := arr1[..], mtfFreq[..];
      var j := FindAndMove(yy, m, c);
      assert arr1[..] == words && mtfFreq[..] == freq;
      EncodingIndex(start, syms, list, nums, i, j);
      PutSymbol(arr1, mtfFreq, wr, j + 1, little, p, syms, i + 1, m + 2);
      wr := wr + 1;
      syms := syms + [j + 1];
    }
  }

  lemma EncodingList(start: seq<Byte>, syms: seq<int>, list: seq<Byte>, nums: seq<Byte>, i: int, zPend: int)
    requires Encoding(start, syms, list, nums, i, zPend)
    ensures |list| == |start| && forall x | x in start :: x in list
  {
  }

  lemma RunIsSymbols(start: seq<Byte>, syms: seq<int>, list: seq<Byte>, out: seq<Byte>, run: int)
    requires RunInProgress(start, syms, list, out, run, 0)
    ensures Symbols(start, syms)
  {
  }

  /** The symbols of a block. Every pointer is read before the value that overwrites it is written, and the
      values never outnumber the bytes by more than the end mark. */
  method GenerateMTFValues(arr1: array<int>, block: array<Byte>, inUse: array<bool>, unseqToSeq: array<Byte>,
                           mtfFreq: array<int>, nblock: int, little: bool)
    returns (nInUse: int, nMTF: int, ghost mtfv: seq<int>)
    requires 0 < nblock == arr1.Length <= block.Length && inUse.Length == 256 == unseqToSeq.Length
    requires mtfFreq.Length == Huffman.BZ_MAX_ALPHA_SIZE && arr1 != mtfFreq
    requires unseqToSeq != block && unseqToSeq as object != arr1 && unseqToSeq as object != mtfFreq
    requires block as object != arr1 && block as object != mtfFreq
    requires IsPermutation(arr1[..], nblock)
    requires forall i | 0 <= i < nblock :: inUse[block[i]]
    modifies arr1, unseqToSeq, mtfFreq
    ensures nInUse == |Used(inUse[..], 256)|
    ensures nMTF == |mtfv| <= nblock + 1 && |mtfv| > 0
    ensures forall w | 0 <= w < nMTF :: w / 2 < arr1.Length && Half(arr1[..], w, little) == mtfv[w]
    ensures IsMtfOf(mtfv, Numbered(inUse[..], LastColumn(block[..nblock], old(arr1[..]))), nInUse)
    ensures Counted(mtfFreq[..], mtfv, nInUse + 2)
  {
    hide Overlaid, Counted, Encoding, RunInProgress, Output, Used, IsMtfOf;
    ghost var p, b, used := arr1[..], block[..nblock], inUse[..];
    ghost var col := LastColumn(b, p);
    ghost var nums := Numbered(used, col);
    nInUse := MakeMapsE(inUse, unseqToSeq);
    UsedAt(used, block[0]);
    var eob := nInUse + 1;
    for i := 0 to eob + 1
      invariant forall v | 0 <= v < i :: mtfFreq[v] == 0
      invariant arr1[..] == p && forall c | 0 <= c < 256 && inUse[c] :: unseqToSeq[c] == |Used(used, c)|
    {
      mtfFreq[i] := 0;
    }
    var wr, zPend := 0, 0;
    var yy := new Byte[256];
    InitList(yy, nInUse);
    ghost var start := MtfSegments.Identity()[..nInUse];
    ghost var syms: seq<int> := [];
    EncodingStarts(arr1[..], mtfFreq[..], start, nums, nInUse, little);
    for i := 0 to nblock
      invariant wr == |syms|
      invariant Overlaid(arr1[..], p, syms, i, little) && Counted(mtfFreq[..], syms, nInUse + 2)
      invariant Encoding(start, syms, yy[..nInUse], nums, i, zPend)
      invariant forall c | 0 <= c < 256 && inUse[c] :: unseqToSeq[c] == |Used(used, c)|
    {
      Unread(arr1[..], p, syms, i, little);
      var j := arr1[i] - 1;
      if j < 0 { j := j + nblock; }
      assert j == Pred(p[i], nblock) && block[j] == col[i];
      var c := unseqToSeq[block[j]];
      NumberedBack(used, col, i);
      InIdentity(nInUse, c);
      wr, zPend, syms := EncodeByte(arr1, yy, mtfFreq, wr, zPend, c, little, nInUse, p, syms, start, nums, i);
    }
    EncodingRun(start, syms, yy[..nInUse], nums, nblock, zPend);
    Unread(arr1[..], p, syms, nblock, little);
    ghost var syms0 := syms;
    if zPend > 0 {
      wr, syms := PutRun(arr1, mtfFreq, wr, zPend, little, p, syms, nblock + 1, start, yy[..nInUse],
                         nums[..nblock - zPend], nInUse + 2);
    }
    RunFinished(start, syms0, syms, yy[..nInUse], nums, zPend, nInUse);
    PutSymbol(arr1, mtfFreq, wr, eob, little, p, syms, nblock + 1, nInUse + 2);
    wr := wr + 1;
    mtfv := syms + [eob];
    OverlaidFacts(arr1[..], p, mtfv, nblock + 1, little);
    nMTF := wr;
  }

  lemma EncodingStarts(words: seq<int>, freq: seq<int>, start: seq<Byte>, nums: seq<Byte>, m: int, little: bool)
    requires |words| > 0 && |freq| == Huffman.BZ_MAX_ALPHA_SIZE && 0 < m <= 256 && start == MtfSegments.Identity()[..m]
    requires forall v | 0 <= v < m + 2 :: freq[v] == 0
    ensures Overlaid(words, words, [], 0, little) && Counted(freq, [], m + 2) && Encoding(start, [], start, nums, 0, 0)
  {
  }

  lemma Unread(words: seq<int>, p: seq<int>, syms: seq<int>, i: int, little: bool)
    requires Overlaid(words, p, syms, i, little) && i <= |p|
    ensures |words| == |p| && (i < |p| ==> words[i] == p[i])
    ensures Overlaid(words, p, syms, i + 1, little)
  {
    hide Half;
  }

  lemma OverlaidFacts(words: seq<int>, p: seq<int>, syms: seq<int>, i: int, little: bool)
    requires Overlaid(words, p, syms, i, little)
    ensures |words| == |p| && |syms| <= |p| + 1
    ensures forall w | 0 <= w < |syms| :: w / 2 < |words| && Half(words, w, little) == syms[w]
  {
    hide Half;
  }

  lemma InIdentity(m: int, c: int)
    requires 0 <= c < m <= 256
    ensures c in MtfSegments.Identity()[..m]
  {
    assert MtfSegments.Identity()[..m][c] == c;
  }

  lemma RunFinished(start: seq<Byte>, syms0: seq<int>, syms: seq<int>, list: seq<Byte>, nums: seq<Byte>, zPend: int,
                    m: int)
    requires Encoding(start, syms0, list, nums, |nums|, zPend)
    requires if zPend > 0 then RunInProgress(start, syms, list, nums[..|nums| - zPend], zPend, 0) else syms == syms0
    requires 0 < m <= 256 && start == MtfSegments.Identity()[..m]
    ensures IsMtfOf(syms + [m + 1], nums, m) && |syms| <= |nums|
  {
    EncodingRun(start, syms0, list, nums, |nums|, zPend);
    RunWritten(start, syms0, syms, list, nums, |nums|, zPend);
    RunLeavesRoom(start, syms, list, nums[..|nums| - zPend], zPend, 0);
    assert nums[..|nums|] == nums;
    assert (syms + [m + 1])[..|syms|] == syms;
  }
}
