/** BZ2_blockSort: chooses a sorter, falls back when the main one gives up, and finds the row of the
    original block. */
module BlockSort {
  import opened Permutations
  import opened Rotations
  import opened MainQuickSort
  import opened MainSort
  import FallbackSort

  /** The work factor clamped to 1..100, as a number of comparisons per byte. */
  function WorkPerByte(wfact: int): (r: int)
    ensures 0 <= r <= 33
  {
    var w := if wfact < 1 then 1 else if wfact > 100 then 100 else wfact;
    (w - 1) / 3
  }

  /** ptr becomes a sorted order of the rotations and origPtr the row of the unrotated block; the block
      itself is unchanged. Which of the two sorters did the work is not visible in this contract. */
  method BZ2BlockSort(ptr: array<int>, block: array<Byte>, eclass: array<int>, quadrant: array<int>,
                      ftab: array<int>, bhtab: array<bv32>, nblock: int, wfact: int)
    returns (origPtr: int)
    requires 0 < nblock <= MAX_BLOCK && ptr.Length == eclass.Length == nblock
    requires block.Length == quadrant.Length == nblock + BZ_N_OVERSHOOT
    requires ftab.Length == 65537 == bhtab.Length
    requires ptr != eclass && ptr != quadrant && ptr != ftab && eclass != quadrant && quadrant != ftab
    requires block as object != ptr && block as object != eclass && block as object != quadrant
             && block as object != ftab
    requires bhtab as object != ptr && bhtab as object != eclass && bhtab as object != block
    modifies ptr, block, eclass, quadrant, ftab, bhtab
    ensures block[..nblock] == old(block[..nblock])
    ensures IsRotationOrder(block[..nblock], ptr[..]) && NeverDescends(block[..nblock], ptr[..])
    ensures 0 <= origPtr < nblock && ptr[origPtr] == 0
  {
    hide IsRotationOrder, IsPermutation, NeverDescends;
    ghost var b := block[..nblock];
    if nblock < 10000 {
      FallbackSort.FallbackSort(ptr, eclass, block, bhtab, nblock);
    } else {
      var budget := nblock * WorkPerByte(wfact);
      budget := MainSort.MainSort(ptr, block, quadrant, ftab, nblock, budget);
      if budget < 0 {
        FallbackSort.FallbackSort(ptr, eclass, block, bhtab, nblock);
      }
    }
    OrderPermutes(b, ptr[..]);
    OrderAscends(b, ptr[..]);
    ghost var at := PermutationIndex(ptr[..], nblock, 0);
    origPtr := -1;
    var i := 0;
    while i < nblock
      invariant 0 <= i <= at && origPtr == -1
    {
      if ptr[i] == 0 {
        origPtr := i;
        break;
      }
      i := i + 1;
    }
    assert origPtr != -1;   // assertion 1003
  }
}
