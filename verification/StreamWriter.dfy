/** The parts of a stream as BZ2_compressBlock writes them. */
module StreamWriter {
  import opened Permutations
  import opened Rotations
  import opened RunLength
  import opened BlockCrc
  import opened Bits
  import opened BitStream
  import opened InverseBwt
  import opened StreamFormat
  import opened BlockFormat
  import opened BlockWriter
  import opened BlockCompressor
  import opened MtfEncoder

  method PutBytes(w: BitWriter, bytes: seq<Byte>)
    requires w.Valid()
    modifies w
    ensures w.Valid() && w.Written() == old(w.Written()) + BytesToBits(bytes)
    ensures bytes != [] ==> HeldAfter(w.bsLive, 8)
  {
    hide ToBits, BitWriter.Valid, BitWriter.Written;
    ghost var w0 := w.Written();
    for i := 0 to |bytes|
      invariant w.Valid() && w.Written() == w0 + BytesToBits(bytes[..i]) && (i > 0 ==> HeldAfter(w.bsLive, 8))
    {
      assert bytes[..i + 1] == bytes[..i] + [bytes[i]];
      BytesAppend(bytes[..i], bytes[i]);
      assert w0 + (BytesToBits(bytes[..i]) + ToBits(bytes[i], 8)) == w0 + BytesToBits(bytes[..i]) + ToBits(bytes[i], 8);
      w.PutByte(bytes[i]);
    }
    assert bytes[..|bytes|] == bytes;
  }

  method PutSum(w: BitWriter, crc: bv32)
    requires w.Valid()
    modifies w
    ensures w.Valid() && w.Written() == old(w.Written()) + SumBits(crc)
  {
    w.PutUInt32(crc as int);
  }

  method WriteHeader(w: BitWriter, level: int)
    requires w.Valid() && 1 <= level <= 9
    modifies w
    ensures w.Valid() && w.Written() == old(w.Written()) + HeaderBits(level) && HeldAfter(w.bsLive, 8)
  {
    PutBytes(w, HEADER_BYTES + [BZ_HDR_0 + level]);
  }

  method WriteTrailer(w: BitWriter, combinedCRC: bv32, ghost blocks: seq<Sealed>)
    requires w.Valid() && combinedCRC == Combined(blocks)
    modifies w
    ensures w.Valid() && w.Written() == old(w.Written()) + TrailerBits(blocks)
  {
    hide BytesToBits, SumBits, Combined, ToBits, TrailerBits, Aligned;
    ghost var w0 := w.Written();
    PutBytes(w, END_MAGIC);
    PutSum(w, combinedCRC);
    TrailerParts(w0, combinedCRC, blocks);
  }

  lemma TrailerParts(w: seq<bool>, combinedCRC: bv32, blocks: seq<Sealed>)
    requires combinedCRC == Combined(blocks)
    ensures w + BytesToBits(END_MAGIC) + SumBits(combinedCRC) == w + TrailerBits(blocks)
  {
    hide BytesToBits, SumBits, Combined;
  }

  /** Magic number, checksum, randomisation bit and origin pointer. */
  method WriteFields(w: BitWriter, crc: bv32, origPtr: int)
    requires w.Valid() && 0 <= origPtr < 900000
    modifies w
    ensures w.Valid()
    ensures w.Written() == old(w.Written()) + BytesToBits(BLOCK_MAGIC) + SumBits(crc) + [false] + ToBits(origPtr, 24)
  {
    hide ToBits, BytesToBits, SumBits, Pow2, Aligned;
    BigEnough();
    PutBytes(w, BLOCK_MAGIC);
    PutSum(w, crc);
    PutBit(w, false);
    w.Put(24, origPtr);
  }

  /** Codes and writes one sorted block; s records how. */
  method WriteBlock(w: BitWriter, level: int, arr1: array<int>, arr2: array<Byte>, inUse: array<bool>, nblock: int,
                    origPtr: int, crc: bv32, little: bool, ghost runs: seq<Run>)
    returns (ghost s: Sealed)
    requires w.Valid() && 1 <= level <= 9 && 0 < nblock == arr1.Length <= arr2.Length && inUse.Length == 256
    requires GoodRuns(runs) && Separated(runs) && arr2[..nblock] == Stored(runs) && nblock <= 100000 * level - 10
    requires arr2 as object != arr1
    requires InUseOf(inUse[..], arr2[..nblock])
    requires IsRotationOrder(arr2[..nblock], arr1[..]) && 0 <= origPtr < nblock && arr1[origPtr] == 0
    requires crc == Finalise(CrcOf(INITIAL, Spelled(runs)))
    modifies w, arr1
    ensures w.Valid() && IsSealed(s, level) && s.runs == runs && s.input == Spelled(runs)
    ensures s.origPtr >= 0 && Codes(s.coding, s.nInUse) && w.Written() == old(w.Written()) + BlockBits(s)
    ensures HeldAfter(w.bsLive, LastCode(s.coding))
  {
    hide LastCode, HeldAfter, ToBits, BytesToBits, CodingBits, SumBits, CrcOf, IsRotationOrder, IsPermutation, Codes,
         Stored, Spelled, Separated, Used, LastColumn, Numbered, IsMtfOf, Aligned, CodesBlock, IsSealed, BlockSum,
         Finalise;
    ghost var w0, b, order := w.Written(), arr2[..nblock], arr1[..];
    OrderFacts(b, order);
    WriteFields(w, crc, origPtr);
    var nInUse;
    ghost var k;
    AllMarked(inUse[..], b);
    forall i | 0 <= i < nblock ensures inUse[arr2[i]] { assert arr2[i] == b[i] && inUse[..][b[i]]; }
    nInUse, k := CodeBlock(w, arr1, arr2, inUse, nblock, little);
    s := Sealed(Spelled(runs), runs, order, origPtr, nInUse, k);
    MakeSealed(s, level, b, inUse[..]);
    SealedSum(s);
    FiveParts(w0, BytesToBits(BLOCK_MAGIC), SumBits(crc), [false], ToBits(origPtr, 24), CodingBits(k, nInUse));
  }

  lemma SealedSum(s: Sealed)
    ensures BlockSum(s) == Finalise(CrcOf(INITIAL, s.input))
  {
    hide CrcOf, Finalise;
  }

  lemma BigEnough()
    ensures Pow2(24) >= 900000
  {
    Powers();
  }

  lemma MakeSealed(s: Sealed, level: int, b: seq<Byte>, used: seq<bool>)
    requires GoodRuns(s.runs) && Separated(s.runs) && b == Stored(s.runs) && s.input == Spelled(s.runs)
    requires 0 < |b| <= 100000 * level - 10 && IsRotationOrder(b, s.order) && 0 <= s.origPtr < |b|
             && s.order[s.origPtr] == 0
    requires IsPermutation(s.order, |b|) && CodesBlock(s.coding, s.nInUse, b, s.order) && s.coding.inUse == used
             && |used| == 256
    requires InUseOf(used, b)
    ensures IsSealed(s, level) && Codes(s.coding, s.nInUse)
  {
    hide Codes, Used, IsMtfOf, Numbered, LastColumn, Spelled, Separated;
  }

  lemma FiveParts(w: seq<bool>, a: seq<bool>, b: seq<bool>, c: seq<bool>, d: seq<bool>, e: seq<bool>)
    ensures w + a + b + c + d + e == w + (a + b + c + d + e)
  {
  }
}
