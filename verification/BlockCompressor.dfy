/** One block on its way out: sorted, numbered, coded and written. */
module BlockCompressor {
  import opened Permutations
  import opened Rotations
  import opened InverseBwt
  import opened Bits
  import opened BitStream
  import opened BlockFormat
  import opened BlockCoder
  import opened MtfEncoder
  import opened MoveToFront
  import BlockSort
  import MainQuickSort
  import Huffman

  /** BZ2_blockSort with its work space, sized to the block. */
  method SortBlock(block: seq<Byte>, workFactor: int) returns (arr1: array<int>, arr2: array<Byte>, origPtr: int)
    requires 0 < |block| <= 900000
    ensures fresh(arr1) && fresh(arr2) && arr1.Length == |block| <= arr2.Length && arr2[..|block|] == block
    ensures IsRotationOrder(block, arr1[..]) && 0 <= origPtr < |block| && arr1[origPtr] == 0
  {
    hide IsRotationOrder;
    var nblock := |block|;
    arr1 := new int[nblock];
    arr2 := new Byte[nblock + MainQuickSort.BZ_N_OVERSHOOT];
    var eclass := new int[nblock];
    var quadrant := new int[nblock + MainQuickSort.BZ_N_OVERSHOOT];
    var ftab := new int[65537];
    var bhtab := new bv32[65537];
    for i := 0 to nblock
      invariant arr2[..i] == block[..i]
    {
      arr2[i] := block[i];
    }
    assert arr2[..nblock] == block;
    origPtr := BlockSort.BZ2BlockSort(arr1, arr2, eclass, quadrant, ftab, bhtab, nblock, workFactor);
  }

  /** The coding k is one of the column of the block under the given order. */
  ghost predicate CodesBlock(k: Coding, nInUse: int, block: seq<Byte>, order: seq<int>)
    requires |block| > 0 && IsPermutation(order, |block|)
  {
    && Codes(k, nInUse) && nInUse == |Used(k.inUse, 256)|
    && IsMtfOf(k.mtfv, Numbered(k.inUse, LastColumn(block, order)), nInUse)
  }

  /** generateMTFValues and sendMTFValues. */
  method CodeBlock(w: BitWriter, arr1: array<int>, arr2: array<Byte>, inUse: array<bool>, nblock: int, little: bool)
    returns (nInUse: int, ghost k: Coding)
    requires w.Valid() && 0 < nblock == arr1.Length <= arr2.Length && nblock <= 900000 && inUse.Length == 256
    requires IsPermutation(arr1[..], nblock) && arr2 as object != arr1
    requires forall i | 0 <= i < nblock :: inUse[arr2[i]]
    modifies w, arr1
    ensures w.Valid() && k.inUse == inUse[..] && CodesBlock(k, nInUse, arr2[..nblock], old(arr1[..]))
    ensures w.Written() == old(w.Written()) + CodingBits(k, nInUse)
    ensures Settles(k, nInUse + 2) && HeldAfter(w.bsLive, LastCode(k))
  {
    hide Settles, LastCode, HeldAfter, Used, IsMtfOf, Half, Codes, CodingBits, Numbered, LastColumn, ToBits,
         BytesToBits, IsPermutation;
    var unseqToSeq := new Byte[256];
    var mtfFreq := new int[Huffman.BZ_MAX_ALPHA_SIZE];
    var nMTF;
    ghost var mtfv, order, b := [], arr1[..], arr2[..nblock];
    nInUse, nMTF, mtfv := GenerateMTFValues(arr1, arr2, inUse, unseqToSeq, mtfFreq, nblock, little);
    assert arr2[..nblock] == b;
    SymbolsInRange(mtfv, Numbered(inUse[..], LastColumn(b, order)), nInUse);
    k := SendMTFValues(w, arr1, mtfFreq, nMTF, little, inUse, nInUse, mtfv);
  }

  lemma SymbolsInRange(mtfv: seq<int>, nums: seq<Byte>, nInUse: int)
    requires IsMtfOf(mtfv, nums, nInUse)
    ensures 1 <= nInUse <= 256 && nInUse + 1 in mtfv && forall i | 0 <= i < |mtfv| :: 0 <= mtfv[i] < nInUse + 2
  {
    hide After, Output;
    forall i | 0 <= i < |mtfv| ensures 0 <= mtfv[i] < nInUse + 2 {
      if i < |mtfv| - 1 { assert mtfv[..|mtfv| - 1][i] == mtfv[i]; }
    }
  }
}
