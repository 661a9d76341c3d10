/** The format of a whole stream: header, blocks, trailer. */
module StreamFormat {
  import opened Permutations
  import opened Rotations
  import opened InverseBwt
  import opened RunLength
  import opened Bits
  import opened BlockFormat
  import opened MtfEncoder
  import opened BlockCrc

  const HEADER_BYTES: seq<Byte> := [0x42, 0x5a, 0x68]
  const BZ_HDR_0: int := 0x30
  const BLOCK_MAGIC: seq<Byte> := [0x31, 0x41, 0x59, 0x26, 0x53, 0x59]
  const END_MAGIC: seq<Byte> := [0x17, 0x72, 0x45, 0x38, 0x50, 0x90]

  /** A compressed block together with all that went into it: the input and its runs, the sorted rotations of the
      stored runs, and the coding of the resulting symbols. */
  datatype Sealed = Sealed(input: seq<Byte>, runs: seq<Run>, order: seq<int>, origPtr: int, nInUse: int, coding: Coding)

  ghost function BlockOf(s: Sealed): seq<Byte>
    requires GoodRuns(s.runs)
  {
    Stored(s.runs)
  }

  /** The runs spell the input; the rest follows from them by sorting and coding. */
  ghost predicate IsSealed(s: Sealed, level: int) {
    && GoodRuns(s.runs) && Separated(s.runs) && s.input == Spelled(s.runs)
    && 0 < |BlockOf(s)| <= 100000 * level - 10
    && IsRotationOrder(BlockOf(s), s.order) && 0 <= s.origPtr < |s.order| && s.order[s.origPtr] == 0
    && Codes(s.coding, s.nInUse) && s.nInUse == |Used(s.coding.inUse, 256)|
    && InUseOf(s.coding.inUse, BlockOf(s))
    && IsMtfOf(s.coding.mtfv, Numbered(s.coding.inUse, LastColumn(BlockOf(s), s.order)), s.nInUse)
  }

  lemma SealedCodes(s: Sealed, level: int)
    requires IsSealed(s, level)
    ensures Codes(s.coding, s.nInUse) && s.origPtr >= 0
  {
  }

  /** The checksum of a block is that of the input it stands for. */
  ghost function BlockSum(s: Sealed): bv32 {
    Finalise(CrcOf(INITIAL, s.input))
  }

  ghost function SumBits(crc: bv32): (r: seq<bool>)
    ensures |r| == 32
  {
    ToBits(crc as int, 32)
  }

  ghost function BlockBits(s: Sealed): seq<bool>
    requires Codes(s.coding, s.nInUse) && s.origPtr >= 0
  {
    BytesToBits(BLOCK_MAGIC) + SumBits(BlockSum(s)) + [false] + ToBits(s.origPtr, 24) + CodingBits(s.coding, s.nInUse)
  }

  ghost predicate AllSealed(blocks: seq<Sealed>, level: int) {
    forall i | 0 <= i < |blocks| :: IsSealed(blocks[i], level)
  }

  /** The bits of the blocks from i on... */
  ghost function BlocksFrom(blocks: seq<Sealed>, level: int, i: nat): seq<bool>
    requires AllSealed(blocks, level) && i <= |blocks|
    decreases |blocks| - i
  {
    if i == |blocks| then [] else BlockBits(blocks[i]) + BlocksFrom(blocks, level, i + 1)
  }

  /** ... of all blocks, one appended after the other... */
  ghost function AllBlocks(blocks: seq<Sealed>, level: int): seq<bool>
    requires AllSealed(blocks, level)
  {
    if blocks == [] then [] else AllBlocks(blocks[..|blocks| - 1], level) + BlockBits(blocks[|blocks| - 1])
  }

  /** ... which is the same. */
  lemma {:induction false} BlocksAgree(blocks: seq<Sealed>, level: int, i: nat)
    requires AllSealed(blocks, level) && i <= |blocks|
    ensures AllSealed(blocks[..i], level)
    ensures AllBlocks(blocks[..i], level) + BlocksFrom(blocks, level, i) == AllBlocks(blocks, level)
    decreases |blocks| - i
  {
    hide IsSealed, BlockBits;
    if i == |blocks| {
      assert blocks[..i] == blocks;
      assert AllBlocks(blocks, level) + [] == AllBlocks(blocks, level);
    } else {
      BlocksAgree(blocks, level, i + 1);
      SealedCodes(blocks[i], level);
      assert blocks[..i + 1][..i] == blocks[..i];
      var a, b, c := AllBlocks(blocks[..i], level), BlockBits(blocks[i]), BlocksFrom(blocks, level, i + 1);
      assert a + (b + c) == (a + b) + c;
    }
  }

  /** The input of all blocks. */
  ghost function Inputs(blocks: seq<Sealed>): seq<Byte> {
    if blocks == [] then [] else Inputs(blocks[..|blocks| - 1]) + blocks[|blocks| - 1].input
  }

  /** The combined checksum of all blocks. */
  ghost function Combined(blocks: seq<Sealed>): bv32 {
    if blocks == [] then 0 else Combine(Combined(blocks[..|blocks| - 1]), BlockSum(blocks[|blocks| - 1]))
  }

  lemma BlocksAppend(blocks: seq<Sealed>, level: int, s: Sealed)
    requires AllSealed(blocks, level) && IsSealed(s, level)
    ensures AllSealed(blocks + [s], level)
    ensures AllBlocks(blocks + [s], level) == AllBlocks(blocks, level) + BlockBits(s)
    ensures Inputs(blocks + [s]) == Inputs(blocks) + s.input
    ensures Combined(blocks + [s]) == Combine(Combined(blocks), BlockSum(s))
  {
    hide IsSealed, BlockBits, Combine, BlockSum;
    assert (blocks + [s])[..|blocks|] == blocks;
  }

  ghost function HeaderBits(level: int): (r: seq<bool>)
    requires 1 <= level <= 9
    ensures |r| == 32
  {
    BytesToBits(HEADER_BYTES + [BZ_HDR_0 + level])
  }

  ghost function TrailerBits(blocks: seq<Sealed>): (r: seq<bool>)
    ensures |r| == 80
  {
    BytesToBits(END_MAGIC) + SumBits(Combined(blocks))
  }

  /** The bytes z are a complete stream for the input x: one header, blocks whose inputs make up x, one trailer,
      and fewer than eight padding bits. */
  ghost predicate IsStreamOf(z: seq<Byte>, level: int, blocks: seq<Sealed>, x: seq<Byte>) {
    && 1 <= level <= 9 && AllSealed(blocks, level) && x == Inputs(blocks)
    && exists pad: seq<bool> :: |pad| < 8
         && BytesToBits(z) == HeaderBits(level) + AllBlocks(blocks, level) + TrailerBits(blocks) + pad
  }
}
