/** The decompressing side of a stream: BZ2_bzDecompress, for a stream that comes in any pieces and for any
    sequence of output buffers. */
module Decompressor {
  import opened Permutations
  import opened BlockCrc
  import opened Bits
  import opened BitStream
  import opened BlockFormat
  import opened BlockReader
  import opened BlockDecompressor
  import opened RunLengthDecoder
  import opened StreamChecks
  import opened StreamFormat
  import opened StreamReader

  datatype Stage = MagicNumber | BlockHeader | Delivering | Finished
  datatype Return = Ok | StreamEnd | DataError | MagicError | SequenceError | NeedInput | OutOfBounds

  // ---- where the arrays for selectors are left ----

  /** A block comes, from these bytes of its magic number on, whose selectors do not fit. */
  ghost predicate MagicOverruns(magic: seq<Byte>, u: seq<bool>, level: int) {
    BytesToBits(magic) <= u && BlockOverruns(u[8 * |magic|..], level)
  }

  ghost predicate OverrunsAt(input: seq<bool>, p: nat, level: int) {
    && Headed(input, level) && p <= |input|
    && MagicOverruns(BLOCK_MAGIC, input[p..], level)
  }

  /** Somewhere behind a stream header there is such a block... */
  ghost predicate CanOverrun(input: seq<bool>) {
    exists p: nat, level: int :: OverrunsAt(input, p, level)
  }

  /** ... or it is the first one. */
  ghost predicate FirstOverruns(input: seq<bool>) {
    exists level: int :: OverrunsAt(input, HEADER_BITS, level)
  }

  lemma FirstHeaded(input: seq<bool>)
    requires FirstOverruns(input)
    ensures exists l :: Headed(input, l)
  {
    hide MagicOverruns, HeaderBits;
    var l :| OverrunsAt(input, HEADER_BITS, l);
    assert Headed(input, l);
  }

  lemma FirstBlock(input: seq<bool>, u: seq<bool>, level: int)
    requires FirstOverruns(input)
    requires forall l | Headed(input, l) :: l == level && u == input[HEADER_BITS..]
    ensures MagicOverruns(BLOCK_MAGIC, u, level)
  {
    hide MagicOverruns, HeaderBits;
    var l :| OverrunsAt(input, HEADER_BITS, l);
    assert Headed(input, l);
  }

  lemma SomeOverruns(input: seq<bool>, u: seq<bool>, level: int)
    requires Headed(input, level) && IsTail(u, input) && MagicOverruns(BLOCK_MAGIC, u, level)
    ensures CanOverrun(input)
  {
    hide MagicOverruns, HeaderBits;
    assert input[|input| - |u|..] == u;
    assert OverrunsAt(input, |input| - |u|, level);
  }

  lemma MagicSplit(u: seq<bool>, uc: Byte, u': seq<bool>, level: int)
    requires Coming(u, ToBits(uc, 8), u')
    ensures MagicOverruns(BLOCK_MAGIC, u, level) <==> uc == 0x31 && MagicOverruns(BLOCK_MAGIC[1..], u', level)
  {
    hide ToBits, BytesToBits, BlockOverruns;
    BytesHead(BLOCK_MAGIC);
    var a, b := ToBits(0x31, 8), BytesToBits(BLOCK_MAGIC[1..]);
    Powers();
    ValueToBits(uc, 8);
    ValueToBits(0x31, 8);
    assert u[..8] == ToBits(uc, 8) && u[8..] == u';
    if uc == 0x31 && b <= u' { assert u == a + u' && a + b <= u; }
    if a + b <= u {
      assert u[..8] == a;
      assert u'[..40] == b;
    }
    if a + b <= u { assert u[48..] == u'[40..]; }
  }

  lemma NoMagic(u: seq<bool>, level: int)
    requires |u| < 8
    ensures !MagicOverruns(BLOCK_MAGIC, u, level)
  {
  }

  lemma MagicRead(u: seq<bool>, magic: seq<Byte>, u': seq<bool>, level: int)
    requires Coming(u, BytesToBits(magic), u')
    ensures MagicOverruns(magic, u, level) <==> BlockOverruns(u', level)
    ensures |u| == 8 * |magic| + |u'|
  {
    hide BytesToBits, BlockOverruns;
    assert u[8 * |magic|..] == u';
  }

  /** The bits of one header are not those of another. */
  lemma SameHeader(u: seq<bool>, u1: seq<bool>, size: Byte, u2: seq<bool>, level: int)
    requires Headed(u, level)
    requires Coming(u, BytesToBits(HEADER_BYTES), u1) && Coming(u1, ToBits(size, 8), u2)
    ensures size == BZ_HDR_0 + level && u2 == u[HEADER_BITS..]
  {
    hide ToBits, BytesToBits;
    BytesAppend(HEADER_BYTES, BZ_HDR_0 + level);
    Powers();
    ValueToBits(size, 8);
    ValueToBits(BZ_HDR_0 + level, 8);
    var a, b := BytesToBits(HEADER_BYTES), ToBits(BZ_HDR_0 + level, 8);
    assert HeaderBits(level) == a + b;
    assert u1 == u[24..] && u[24..32] == b && u1[..8] == ToBits(size, 8);
    assert u1[..8] == u[24..32];
  }

  lemma ShortHeader(u: seq<bool>, level: int)
    requires Headed(u, level)
    ensures BytesToBits(HEADER_BYTES) <= u
  {
    hide ToBits, BytesToBits;
    BytesAppend(HEADER_BYTES, BZ_HDR_0 + level);
  }

  // ---- the stream still to come, on values ----

  /** From block i on, the trailer included. */
  ghost function StreamFrom(blocks: seq<Sealed>, level: int, i: nat): seq<bool>
    requires AllSealed(blocks, level) && i <= |blocks|
  {
    BlocksFrom(blocks, level, i) + TrailerBits(blocks)
  }

  /** A block without the first byte of its magic number, and everything after it. */
  ghost function BlockTail(blocks: seq<Sealed>, level: int, i: nat): seq<bool>
    requires AllSealed(blocks, level) && i < |blocks| && Codes(blocks[i].coding, blocks[i].nInUse)
             && blocks[i].origPtr >= 0
  {
    BytesToBits(BLOCK_MAGIC[1..]) + (BlockRest(blocks[i]) + StreamFrom(blocks, level, i + 1))
  }

  /** The trailer without its first byte. */
  ghost function TrailerRest(blocks: seq<Sealed>): seq<bool> {
    BytesToBits(END_MAGIC[1..]) + (ToBits(Combined(blocks) as int, 32) + [])
  }

  lemma BlockFollows(blocks: seq<Sealed>, level: int, i: nat)
    requires AllSealed(blocks, level) && i < |blocks|
    ensures Codes(blocks[i].coding, blocks[i].nInUse) && blocks[i].origPtr >= 0
    ensures StreamFrom(blocks, level, i) == ToBits(0x31, 8) + BlockTail(blocks, level, i)
  {
    hide IsSealed, BlockBits, TrailerBits, ToBits, BytesToBits, BlockRest, IsTail;
    SealedCodes(blocks[i], level);
    var tail := BlocksFrom(blocks, level, i + 1) + TrailerBits(blocks);
    assert BlocksFrom(blocks, level, i) + TrailerBits(blocks) == BlockBits(blocks[i]) + tail;
    BlockParts(blocks[i], tail);
    BytesHead(BLOCK_MAGIC);
  }

  lemma TrailerFollows(blocks: seq<Sealed>, level: int)
    requires AllSealed(blocks, level)
    ensures StreamFrom(blocks, level, |blocks|) == ToBits(0x17, 8) + TrailerRest(blocks)
  {
    hide IsSealed, ToBits, BytesToBits, Combined, IsTail;
    BytesHead(END_MAGIC);
    assert SumBits(Combined(blocks)) == ToBits(Combined(blocks) as int, 32);
  }

  lemma HeaderParts(level: int, bits: seq<bool>)
    requires 1 <= level <= 9
    ensures HeaderBits(level) + bits == BytesToBits(HEADER_BYTES) + (ToBits(BZ_HDR_0 + level, 8) + bits)
  {
    hide ToBits, BytesToBits, IsTail;
    BytesAppend(HEADER_BYTES, BZ_HDR_0 + level);
  }

  /** The decoder and its arrays. */
  ghost function Parts(d: DState?): set<object> {
    if d == null then {} else {d, d.tt, d.ll16, d.ll4, d.cftab, d.cftabCopy, d.unzftab}
  }

  class DecompressorState {
    const small: bool
    const r: BitReader
    var d: DState?
    var stage: Stage
    var storedBlockCRC: int
    var combinedCRC: bv32

    /** The output of each block whose checksum has been found right, where in the input its header
        is, and where the last of them ends. */
    ghost var checked: seq<seq<Byte>>
    ghost var marks: seq<nat>
    ghost var reached: nat

    ghost function Repr(): set<object>
      reads this
    {
      {this, r} + Parts(d)
    }

    ghost predicate Valid()
      reads this, Repr()
    {
      && r.Valid()
      && (stage == MagicNumber <==> d == null)
      && (d != null ==> d.Allocated() && d.availOut >= 0)
      && (stage == Delivering ==> d.Valid())
    }

    /** Everything put out so far. */
    ghost function Output(): seq<Byte>
      reads this, Repr()
    {
      if d == null then [] else d.nextOut
    }

    /** The input is a stream of the given blocks, and next of them have been put out, or the one numbered next is being
        put out. */
    ghost predicate Tracks(level: int, blocks: seq<Sealed>, next: nat, pad: seq<bool>)
      reads this, Repr()
      requires Valid()
    {
      && 1 <= level <= 9 && AllSealed(blocks, level) && next <= |blocks|
      && (d != null ==> d.blockSize100k == level)
      && match stage
         case MagicNumber =>
           next == 0 && Coming(r.Unread(), HeaderBits(level) + StreamFrom(blocks, level, 0), pad) && combinedCRC == 0
         case BlockHeader =>
           && Ahead(level, blocks, next, pad) && combinedCRC == Combined(blocks[..next])
           && d.nextOut == Inputs(blocks[..next])
         case Delivering =>
           && next < |blocks| && Ahead(level, blocks, next + 1, pad) && combinedCRC == Combined(blocks[..next])
           && storedBlockCRC == BlockSum(blocks[next]) as int && Owes(blocks, next)
         case Finished =>
           next == |blocks| && d.nextOut == Inputs(blocks)
    }

    /** The input goes on with the blocks from the one numbered next on. */
    ghost predicate Ahead(level: int, blocks: seq<Sealed>, next: nat, pad: seq<bool>)
      reads r
      requires r.Valid() && AllSealed(blocks, level) && next <= |blocks|
    {
      Coming(r.Unread(), StreamFrom(blocks, level, next), pad)
    }

    /** What is still to be put out of the current block completes its input, and its checksum. */
    ghost predicate Owes(blocks: seq<Sealed>, next: nat)
      reads this, Repr()
      requires Valid() && stage == Delivering && next < |blocks|
    {
      && !d.Truncated() && d.nextOut + d.Remaining() == Inputs(blocks[..next + 1])
      && CrcOf(d.calculatedBlockCRC, d.Remaining()) == CrcOf(INITIAL, blocks[next].input)
    }

    /** Whatever the input is, the output so far consists of the checked blocks, and the beginning of the one being put
        out; the sums calculated are theirs, and those of the checked blocks are in the input. */
    ghost predicate Checked()
      reads this, Repr()
      requires Valid()
    {
      match stage
      case MagicNumber => checked == [] && marks == [] && combinedCRC == 0 && r.Unread() == r.input
      case BlockHeader =>
        && Recorded() && |marks| == |checked| && d.nextOut == Flatten(checked)
        && reached + |r.Unread()| <= |r.input|
      case Delivering =>
        && Recorded() && |marks| == |checked| + 1 && reached + |r.Unread()| <= |r.input|
        && BlockOpen(r.input, checked, marks[|checked|], storedBlockCRC, d.nextOut, d.calculatedBlockCRC)
      case Finished =>
        && Recorded() && |marks| == |checked| && d.nextOut == Flatten(checked)
        && EndBehind(r.input, checked, reached)
    }

    /** Nothing has been read, and the first block has too many selectors. */
    ghost predicate AtStart()
      reads this, Repr()
      requires Valid()
    {
      stage == MagicNumber && r.Unread() == r.input && FirstOverruns(r.input)
    }

    ghost predicate Recorded()
      reads this, d
    {
      d != null && OnRecord(r.input, checked, marks, combinedCRC, d.blockSize100k, reached)
    }

    /** BZ2_bzDecompressInit, by a caller who has input to offer, in pieces. */
    constructor (small: bool, pieces: seq<seq<Byte>>)
      ensures Valid() && stage == MagicNumber && combinedCRC == 0 && fresh(Repr()) && Checked()
      ensures r.Unread() == r.input == BytesToBits(Flatten(pieces)) && Output() == []
    {
      this.small := small;
      r := new BitReader(pieces);
      d, stage, storedBlockCRC, combinedCRC := null, MagicNumber, 0, 0;
      checked, marks, reached := [], [], 0;
    }

    /** The input may be a stream for x. */
    lemma Offered(z: seq<Byte>, level: int, blocks: seq<Sealed>, x: seq<Byte>) returns (pad: seq<bool>)
      requires Valid() && stage == MagicNumber && combinedCRC == 0 && r.Unread() == BytesToBits(z)
      requires IsStreamOf(z, level, blocks, x)
      ensures Tracks(level, blocks, 0, pad)
    {
      hide ToBits, BytesToBits, HeaderBits, AllBlocks, BlocksFrom, TrailerBits, IsSealed, AllSealed, Inputs, IsTail;
      pad := Padding(z, level, blocks, x);
    }

    /** At the end of the stream. */
    lemma AllChecked()
      requires Valid() && Checked() && stage == Finished
      ensures Output() == Flatten(checked) && Vouched(r.input, checked)
    {
      hide OnRecord, EndMark, EndBehind, Flatten, Vouched;
      VouchedFor(r.input, checked, marks, combinedCRC, d.blockSize100k, reached);
    }

    /** The stream header: "BZh" and the block size. */
    method ReadHeader(ghost level: int, ghost blocks: seq<Sealed>, ghost pad: seq<bool>) returns (ret: Return)
      requires Valid() && stage == MagicNumber
      modifies this, r
      ensures Valid() && (ret == Ok <==> stage == BlockHeader) && (ret != Ok ==> stage == MagicNumber)
      ensures ret == Ok ==> (d == old(d) || fresh(Parts(d))) && d.nextOut == [] && d.availOut == 0
      ensures ret in {Ok, MagicError, NeedInput}
      ensures old(Tracks(level, blocks, 0, pad)) ==> ret == Ok && Tracks(level, blocks, 0, pad)
      ensures ret == Ok && old(Checked()) ==> Checked()
      ensures forall l | Headed(old(r.Unread()), l) ::
                ret == Ok && d.blockSize100k == l && r.Unread() == old(r.Unread())[HEADER_BITS..]
    {
      hide ToBits, BytesToBits, HeaderBits, StreamFrom, IsSealed, AllSealed, Inputs, Coming, OnRecord, IsTail;
      ghost var u0 := r.Unread();
      forall l | Headed(u0, l) ensures BytesToBits(HEADER_BYTES) <= u0 {
        ShortHeader(u0, l);
      }
      ghost var good := Tracks(level, blocks, 0, pad);
      ghost var bits := if good then StreamFrom(blocks, level, 0) else [];
      if good { HeaderParts(level, bits); }
      var status := ExpectBytes(r, HEADER_BYTES, if good then ToBits(BZ_HDR_0 + level, 8) + bits else [], pad);
      if status.Bad? { return MagicError; }
      if status.Hungry? { return NeedInput; }
      ghost var u := r.Unread();
      var ok, size := GetByte(r, if good then BZ_HDR_0 + level else 0, bits, pad);
      if !ok { return NeedInput; }
      forall l | Headed(u0, l) ensures size == BZ_HDR_0 + l && r.Unread() == u0[HEADER_BITS..] {
        SameHeader(u0, u, size, r.Unread(), l);
      }
      if size < BZ_HDR_0 + 1 || size > BZ_HDR_0 + 9 { return MagicError; }
      if old(Checked()) { HeaderRead(r.input, u, r.Unread(), size - BZ_HDR_0); }
      reached := HEADER_BITS;
      d := new DState(size - BZ_HDR_0, small);
      stage := BlockHeader;
      ret := Ok;
      NothingYet(blocks);
      FlattenNone<Byte>();
    }

    /** The trailer: its checksum must be the combined one. */
    method ReadTrailer(ghost level: int, ghost blocks: seq<Sealed>, ghost pad: seq<bool>) returns (ret: Return)
      requires Valid() && stage == BlockHeader
      modifies this`stage, r
      ensures Valid() && (ret == StreamEnd ==> stage == Finished) && ret in {StreamEnd, DataError, NeedInput}
      ensures stage in {BlockHeader, Finished}
      ensures ret == StreamEnd ==> BytesToBits(END_MAGIC[1..]) + ToBits(combinedCRC as int, 32) <= old(r.Unread())
      ensures combinedCRC == Combined(blocks) && Coming(old(r.Unread()), TrailerRest(blocks), pad) ==> ret == StreamEnd
    {
      hide ToBits, BytesToBits, Coming, Combined, Pow2, IsTail;
      Powers();
      ghost var sum := ToBits(Combined(blocks) as int, 32) + [];
      var status := ExpectBytes(r, END_MAGIC[1..], sum, pad);
      if status.Bad? { return DataError; }
      if status.Hungry? { return NeedInput; }
      ghost var u := r.Unread();
      var ok, stored := GetBytes(r, 4, Combined(blocks) as int, [], pad);
      if !ok { return NeedInput; }
      ComingFirst(u, ToBits(stored, 32), r.Unread());
      TailRead(old(r.Unread()), BytesToBits(END_MAGIC[1..]), u, ToBits(stored, 32));
      stage := Finished;
      ret := if combinedCRC as int != stored then DataError else StreamEnd;
    }

    /** A block after the first byte of its magic number. */
    method ReadBlockBody(ghost level: int, ghost blocks: seq<Sealed>, ghost next: nat, ghost pad: seq<bool>)
      returns (ret: Return)
      requires Valid() && stage == BlockHeader
      modifies Repr()
      ensures d == old(d) && Valid() && d.nextOut == old(d.nextOut) && d.availOut == old(d.availOut)
              && combinedCRC == old(combinedCRC) && checked == old(checked) && marks == old(marks)
              && reached == old(reached)
      ensures (ret == Ok <==> stage == Delivering) && (ret != Ok ==> stage == BlockHeader)
              && ret in {Ok, DataError, NeedInput, OutOfBounds}
      ensures ret == Ok ==> d.Remaining() != [] && d.calculatedBlockCRC == INITIAL && 0 <= storedBlockCRC < WORD
                            && BytesToBits(BLOCK_MAGIC[1..]) + ToBits(storedBlockCRC, 32) <= old(r.Unread())
                            && |r.Unread()| + MARK_BITS - 8 <= |old(r.Unread())|
      ensures ret == OutOfBounds <==> MagicOverruns(BLOCK_MAGIC[1..], old(r.Unread()), d.blockSize100k)
      ensures old(BodyComing(level, blocks, next, pad)) ==> ret == Ok && BodyDone(level, blocks, next, pad)
    {
      hide ToBits, BytesToBits, StreamFrom, IsSealed, AllSealed, Coming, BlockSum, BlockRest, BlockComing, Codes,
           BlockReady, DState.Vector, DState.Position, DState.Valid, DState.Allocated, DState.Remaining,
           DState.Truncated, CrcOf, Inputs, Combined, BlockOverruns, IsTail;
      ghost var good := BodyComing(level, blocks, next, pad);
      ghost var s, bits, rest := if next < |blocks| then blocks[next] else Nothing(), [], [];
      if good {
        bits := BlockRest(s) + StreamFrom(blocks, level, next + 1);
        rest := StreamFrom(blocks, level, next + 1);
      }
      var status := ExpectBytes(r, BLOCK_MAGIC[1..], bits, pad);
      if status.Bad? { return DataError; }
      if status.Hungry? { return NeedInput; }
      if good { BodyIsBlock(s, level, r.Unread(), rest, pad); }
      ghost var u := r.Unread();
      MagicRead(old(r.Unread()), BLOCK_MAGIC[1..], u, d.blockSize100k);
      status, storedBlockCRC := ReadBlock(r, d, s, rest, pad);
      if status.Bad? { return DataError; }
      if status.Hungry? { return NeedInput; }
      if status.Overrun? { return OutOfBounds; }
      TailRead(old(r.Unread()), BytesToBits(BLOCK_MAGIC[1..]), u, ToBits(storedBlockCRC, 32));
      d.HasOutput();
      stage := Delivering;
      ret := Ok;
    }

    /** The rest of the magic number of a block, and the block; its first bit was the first of u0. */
    method OpenBlock(ghost u0: seq<bool>, ghost level: int, ghost blocks: seq<Sealed>, ghost next: nat,
                     ghost pad: seq<bool>)
      returns (ret: Return)
      requires Valid() && stage == BlockHeader && IsTail(u0, r.input)
      requires Coming(u0, ToBits(0x31, 8), r.Unread()) && |r.Unread()| + 8 <= |u0|
      modifies Repr()
      ensures d == old(d) && Valid() && d.nextOut == old(d.nextOut) && d.availOut == old(d.availOut)
      ensures ret in {Ok, DataError, NeedInput, OutOfBounds} && (ret == Ok <==> stage == Delivering)
      ensures ret == Ok ==> d.Remaining() != []
      ensures ret == OutOfBounds <==> MagicOverruns(BLOCK_MAGIC[1..], old(r.Unread()), d.blockSize100k)
      ensures old(BodyComing(level, blocks, next, pad) && d.nextOut == Inputs(blocks[..next])
                  && combinedCRC == Combined(blocks[..next])) ==>
                ret == Ok && Tracks(level, blocks, next, pad)
      ensures ret == Ok && old(Recorded() && |marks| == |checked| && d.nextOut == Flatten(checked)
                               && reached + |u0| <= |r.input|) ==>
                Checked()
    {
      hide ToBits, BytesToBits, StreamFrom, IsSealed, AllSealed, Coming, BlockSum, BlockRest, BlockComing, Codes,
           DState.Vector, DState.Position, DState.Valid, DState.Allocated, DState.Remaining, DState.Truncated, CrcOf,
           Inputs, Combined, TrailerRest, BlockTail, MagicOverruns, OnRecord, BlockOpen, EndMark, EndBehind, Flatten,
           IsTail, BitReader.Valid, BitReader.Unread, Checked, BlockReady, Tracks, BodyDone;
      ghost var good := BodyComing(level, blocks, next, pad) && d.nextOut == Inputs(blocks[..next])
                        && combinedCRC == Combined(blocks[..next]);
      ghost var sound := Recorded() && |marks| == |checked| && d.nextOut == Flatten(checked)
                         && reached + |u0| <= |r.input|;
      ghost var u1, marks0, reached0 := r.Unread(), marks, reached;
      TailSize(u0, r.input);
      marks, reached := marks + [|r.input| - |u0|], |r.input| - |u0| + MARK_BITS;
      ret := ReadBlockBody(level, blocks, next, pad);
      if good { BlockStarts(level, blocks, next, pad); }
      if ret == Ok && sound {
        BlockOpens(r.input, checked, marks0, combinedCRC, d.blockSize100k, reached0, u0, u1, storedBlockCRC);
        CheckedSoFar();
      }
    }

    lemma BetweenBlocks()
      requires Valid() && stage == BlockHeader && Checked()
      ensures Recorded() && |marks| == |checked| && d.nextOut == Flatten(checked)
              && reached + |r.Unread()| <= |r.input|
    {
      hide OnRecord, BitReader.Valid, BitReader.Unread, DState.Valid, DState.Allocated;
    }

    lemma CheckedSoFar()
      requires Valid() && stage == Delivering && Recorded() && |marks| == |checked| + 1
      requires reached + |r.Unread()| <= |r.input|
      requires BlockOpen(r.input, checked, marks[|checked|], storedBlockCRC, d.nextOut, d.calculatedBlockCRC)
      ensures Checked()
    {
      hide OnRecord, BlockOpen, BitReader.Valid, BitReader.Unread, DState.Valid, DState.Allocated;
    }

    lemma CheckedToTheEnd()
      requires Valid() && stage == Finished && Recorded() && |marks| == |checked| && d.nextOut == Flatten(checked)
      requires EndBehind(r.input, checked, reached)
      ensures Checked()
    {
      hide OnRecord, EndBehind, BitReader.Valid, BitReader.Unread, DState.Valid, DState.Allocated;
    }

    /** From a block header to the start of its output, or to the end of the stream. */
    method ReadBlockHeader(ghost level: int, ghost blocks: seq<Sealed>, ghost next: nat, ghost pad: seq<bool>)
      returns (ret: Return)
      requires Valid() && stage == BlockHeader
      modifies Repr()
      ensures d == old(d) && Valid() && d.nextOut == old(d.nextOut) && d.availOut == old(d.availOut)
      ensures ret in {Ok, StreamEnd, DataError, NeedInput, OutOfBounds} && (ret == Ok <==> stage == Delivering)
              && (ret == StreamEnd ==> stage == Finished)
      ensures ret == Ok ==> d.Remaining() != []
      ensures old(Tracks(level, blocks, next, pad)) ==>
                Tracks(level, blocks, next, pad) && ret == (if next < |blocks| then Ok else StreamEnd)
      ensures ret in {Ok, StreamEnd} && old(Checked()) ==> Checked()
      ensures ret == OutOfBounds <==> MagicOverruns(BLOCK_MAGIC, old(r.Unread()), d.blockSize100k)
    {
      hide ToBits, BytesToBits, StreamFrom, IsSealed, AllSealed, Coming, BlockSum, BlockRest, BlockComing, Codes,
           DState.Vector, DState.Position, DState.Valid, DState.Allocated, DState.Remaining, DState.Truncated, CrcOf,
           Inputs, Combined, TrailerRest, BlockTail, MagicOverruns, OnRecord, BlockOpen, EndMark, EndBehind, Flatten,
           IsTail, BitReader.Valid, BitReader.Unread, Checked;
      ghost var good := Tracks(level, blocks, next, pad);
      ghost var want: Byte, tail := 0, [];
      if good { want, tail := NextMagic(blocks, level, next); }
      ghost var sound, u0 := Checked(), r.Unread();
      r.UnreadEndsInput();
      TailSize(u0, r.input);
      if sound { BetweenBlocks(); }
      var ok, uc := GetByte(r, want, tail, pad);
      if !ok { NoMagic(u0, d.blockSize100k); return NeedInput; }
      ghost var u1 := r.Unread();
      MagicSplit(u0, uc, u1, d.blockSize100k);
      if uc == 0x17 {
        ret := ReadTrailer(level, blocks, pad);
        if good { assert blocks[..|blocks|] == blocks; }
        if ret == StreamEnd && sound {
          TrailerFound(r.input, checked, marks, combinedCRC, d.blockSize100k, reached, u0, u1);
          CheckedToTheEnd();
        }
        return;
      }
      if uc != 0x31 { return DataError; }
      if good { SealedAt(blocks, level, next); }
      ret := OpenBlock(u0, level, blocks, next, pad);
    }

    /** The sum over the blocks takes in the next one. */
    lemma BlockStarts(level: int, blocks: seq<Sealed>, next: nat, pad: seq<bool>)
      requires Valid() && stage == Delivering && BodyDone(level, blocks, next, pad)
      requires d.nextOut == Inputs(blocks[..next]) && combinedCRC == Combined(blocks[..next])
      requires 1 <= level <= 9 && d.blockSize100k == level
      ensures Tracks(level, blocks, next, pad)
    {
      hide DState.Vector, DState.Position, DState.Remaining, DState.Truncated, DState.Valid, DState.Allocated, CrcOf,
           Coming, StreamFrom, AllSealed, Combined, BlockSum, BitReader.Valid, BitReader.Unread;
      PrefixInputs(blocks, next);
    }

    /** A delivery, whatever part of the debt it covers, keeps the books. */
    lemma StillOwes(blocks: seq<Sealed>, next: nat, nextOut0: seq<Byte>, debt: seq<Byte>, room: int, crc0: bv32,
                    truncated0: bool)
      requires Valid() && stage == Delivering && next < |blocks|
      requires d.Served(nextOut0, debt, room, crc0, truncated0) && !truncated0
      requires nextOut0 + debt == Inputs(blocks[..next + 1]) && CrcOf(crc0, debt) == CrcOf(INITIAL, blocks[next].input)
      ensures Owes(blocks, next)
    {
      hide DState.Vector, DState.Position, DState.Remaining, DState.Truncated, CrcOf, Inputs;
      var k := if room <= |debt| then room else |debt|;
      assert debt == debt[..k] + debt[k..];
      assert nextOut0 + debt[..k] + debt[k..] == nextOut0 + debt;
      CrcConcat(crc0, debt[..k], debt[k..]);
    }

    /** A delivery adds to the block that is being put out. */
    lemma StillChecked(nextOut0: seq<Byte>, debt: seq<Byte>, room: int, crc0: bv32, truncated0: bool)
      requires Valid() && stage == Delivering && d.Served(nextOut0, debt, room, crc0, truncated0)
      requires Recorded() && |marks| == |checked| + 1
      requires BlockOpen(r.input, checked, marks[|checked|], storedBlockCRC, nextOut0, crc0)
      requires reached + |r.Unread()| <= |r.input|
      ensures Checked()
    {
      hide DState.Vector, DState.Position, DState.Remaining, DState.Truncated, DState.Valid, CrcOf, OnRecord, BlockOpen;
      var k := if room <= |debt| then room else |debt|;
      BlockGrows(r.input, checked, marks[|checked|], storedBlockCRC, nextOut0, crc0, debt[..k]);
    }

    /** Puts out as much of the current block as there is room for; when it is complete its checksum is checked. */
    method Deliver(ghost level: int, ghost blocks: seq<Sealed>, ghost next: nat, ghost pad: seq<bool>)
      returns (more: bool, ret: Return)
      requires Valid() && stage == Delivering
      modifies this`stage, this`combinedCRC, this`checked, d
      ensures d == old(d) && Valid() && old(d.nextOut) <= d.nextOut
              && |d.nextOut| + d.availOut == |old(d.nextOut)| + old(d.availOut)
      ensures more ==>
                stage == BlockHeader && ret == Ok
                && (d.availOut < old(d.availOut) || (d.availOut == old(d.availOut) && old(d.Remaining()) == []))
      ensures !more ==> ret in {Ok, DataError} && stage == Delivering
      ensures old(Tracks(level, blocks, next, pad)) ==>
                if more then next < |blocks| && Tracks(level, blocks, next + 1, pad)
                else ret == Ok && d.availOut == 0 && Tracks(level, blocks, next, pad)
      ensures ret == Ok && old(Checked()) ==> Checked()
    {
      hide IsSealed, AllSealed, Coming, BlockSum, StreamFrom, Combined, CrcOf, Inputs, DState.Vector, DState.Position,
           DState.Allocated, DState.Remaining, DState.Truncated, Combine, OnRecord, BlockOpen, EndMark, EndBehind,
           Flatten, IsTail;
      ghost var good, sound := Tracks(level, blocks, next, pad), Checked();
      ghost var nextOut0, debt, room, crc0, truncated0 := d.nextOut, d.Remaining(), d.availOut, d.calculatedBlockCRC,
          d.Truncated();
      var corrupt;
      if d.smallDecompress {
        corrupt := d.UnRleSmall();
      } else {
        corrupt := d.UnRleFast();
      }
      if corrupt { return false, DataError; }
      d.CompleteIff();
      if good { StillOwes(blocks, next, nextOut0, debt, room, crc0, truncated0); }
      if sound { StillChecked(nextOut0, debt, room, crc0, truncated0); }
      if d.nblockUsed == d.saveNblock + 1 && d.stateOutLen == 0 {
        more := CloseBlock(level, blocks, next, pad);
        return more, if more then Ok else DataError;
      }
      return false, Ok;
    }

    /** The checksum of a complete block against the one in its header. */
    method CloseBlock(ghost level: int, ghost blocks: seq<Sealed>, ghost next: nat, ghost pad: seq<bool>)
      returns (same: bool)
      requires Valid() && stage == Delivering && d.Remaining() == []
      modifies this`stage, this`combinedCRC, this`checked, d`calculatedBlockCRC
      ensures d == old(d) && Valid() && stage == (if same then BlockHeader else Delivering)
      ensures same <==> Finalise(old(d.calculatedBlockCRC)) as int == storedBlockCRC
      ensures old(Tracks(level, blocks, next, pad)) ==>
                same && next < |blocks| && Tracks(level, blocks, next + 1, pad)
      ensures same && old(Checked()) ==> Checked()
    {
      hide Tracks, Checked, Combine, Finalise, DState.Vector, DState.Position, DState.Allocated, DState.Remaining,
           DState.Truncated, DState.Valid, CrcOf, Flatten, Combined, AllSealed, Inputs, StreamFrom, OnRecord;
      ghost var good, sound, crc := Tracks(level, blocks, next, pad), Checked(), d.calculatedBlockCRC;
      if good { BlockComplete(level, blocks, next, pad); }
      ghost var part := if |Flatten(checked)| <= |d.nextOut| then d.nextOut[|Flatten(checked)|..] else [];
      if sound && Finalise(crc) as int == storedBlockCRC { PartChecked(); }
      d.FinaliseCrc();
      if d.calculatedBlockCRC as int != storedBlockCRC { return false; }
      combinedCRC := Combine(combinedCRC, d.calculatedBlockCRC);
      checked := checked + [part];
      stage := BlockHeader;
      if good { NextTracked(level, blocks, next + 1, pad); }
      if sound { NowChecked(); }
      return true;
    }

    /** Between two blocks. */
    lemma NextTracked(level: int, blocks: seq<Sealed>, next: nat, pad: seq<bool>)
      requires Valid() && stage == BlockHeader && 1 <= level <= 9 && AllSealed(blocks, level) && next <= |blocks|
      requires d.blockSize100k == level && Coming(r.Unread(), StreamFrom(blocks, level, next), pad)
      requires d.nextOut == Inputs(blocks[..next]) && combinedCRC == Combined(blocks[..next])
      ensures Tracks(level, blocks, next, pad)
    {
      hide IsSealed, AllSealed, Coming, StreamFrom, Combined, Inputs, DState.Valid, DState.Allocated, IsTail;
    }

    lemma NowChecked()
      requires Valid() && stage == BlockHeader && Recorded() && |marks| == |checked| && d.nextOut == Flatten(checked)
      requires reached + |r.Unread()| <= |r.input|
      ensures Checked()
    {
      hide OnRecord, Flatten, DState.Valid, DState.Allocated;
    }

    /** The part that is found right. */
    lemma PartChecked()
      requires Valid() && stage == Delivering && Checked() && Finalise(d.calculatedBlockCRC) as int == storedBlockCRC
      ensures |Flatten(checked)| <= |d.nextOut| && |marks| == |checked| + 1 && reached + |r.Unread()| <= |r.input|
      ensures var parts := checked + [d.nextOut[|Flatten(checked)|..]];
              && OnRecord(r.input, parts, marks, Combine(combinedCRC, Finalise(d.calculatedBlockCRC)), d.blockSize100k,
                          reached)
              && Flatten(parts) == d.nextOut
    {
      hide OnRecord, BlockOpen, Flatten, DState.Valid, DState.Allocated, Finalise, Combine;
      BlockChecked(r.input, checked, marks, combinedCRC, d.blockSize100k, reached, storedBlockCRC, d.nextOut,
                   d.calculatedBlockCRC);
    }

    /** A block that is out has its own checksum and completes its input. */
    lemma BlockComplete(level: int, blocks: seq<Sealed>, next: nat, pad: seq<bool>)
      requires Valid() && stage == Delivering && Tracks(level, blocks, next, pad) && d.Remaining() == []
      ensures next < |blocks| && 1 <= level <= 9 && AllSealed(blocks, level) && d.blockSize100k == level
      ensures Coming(r.Unread(), StreamFrom(blocks, level, next + 1), pad) && d.nextOut == Inputs(blocks[..next + 1])
      ensures Finalise(d.calculatedBlockCRC) as int == storedBlockCRC
      ensures Combined(blocks[..next + 1]) == Combine(combinedCRC, Finalise(d.calculatedBlockCRC))
    {
      hide DState.Vector, DState.Position, DState.Remaining, DState.Truncated, Inputs, Combined, Combine, Finalise,
           Update, AllSealed, StreamFrom, Coming, IsTail;
      PrefixInputs(blocks, next);
      assert d.nextOut + [] == d.nextOut;
    }

    /** What the main loop has left to do before it must put something out. */
    ghost function Rank(): nat
      reads this, Repr()
      requires Valid()
    {
      match stage
      case MagicNumber => 4
      case Delivering => if d.Remaining() == [] then 3 else 1
      case BlockHeader => 2
      case Finished => 0
    }

    function AvailOut(room: int): int
      reads this, d
    {
      if d == null then room else d.availOut
    }

    /** One turn of the main loop. */
    method Turn(room: int, ghost level: int, ghost blocks: seq<Sealed>, ghost next0: nat, ghost pad: seq<bool>)
      returns (stop: bool, ret: Return, ghost next: nat)
      requires Valid() && room >= 0 && stage != Finished && AvailOut(room) >= 0
      modifies Repr()
      ensures Valid() && (d == old(d) || fresh(Parts(d)))
      ensures old(Output()) <= Output() && |Output()| + AvailOut(room) == |old(Output())| + old(AvailOut(room))
              && AvailOut(room) >= 0
      ensures !stop ==> stage == Delivering
      ensures !stop ==>
                AvailOut(room) < old(AvailOut(room)) || (AvailOut(room) == old(AvailOut(room)) && Rank() < old(Rank()))
      ensures stop ==>
                ret in {Ok, StreamEnd, DataError, MagicError, NeedInput, OutOfBounds}
                && (ret == StreamEnd ==> stage == Finished)
      ensures stop && ret == Ok ==> stage == Delivering
      ensures old(Tracks(level, blocks, next0, pad)) ==>
                Tracks(level, blocks, next, pad) && (stop ==> ret == StreamEnd || (ret == Ok && AvailOut(room) == 0))
      ensures ret in {Ok, StreamEnd} && old(Checked()) ==> Checked()
      ensures !stop ==> ret == Ok
      ensures ret == OutOfBounds && old(Checked()) ==> CanOverrun(r.input)
      ensures old(AtStart()) ==> ret == OutOfBounds
    {
      hide IsSealed, AllSealed, Coming, BlockSum, StreamFrom, Combined, CrcOf, Inputs, DState.Vector, DState.Position,
           DState.Valid, DState.Allocated, DState.Remaining, DState.Truncated, Finalise, Combine, HeaderBits, Owes,
           Tracks, Checked, IsTail, CanOverrun, FirstOverruns;
      next := next0;
      Standing(level, blocks, next, pad);
      if stage == Delivering {
        var more;
        more, ret := Deliver(level, blocks, next, pad);
        if !more { return true, ret, next; }
        next := next + 1;
        Standing(level, blocks, next, pad);
      }
      ret := NextBlock(room, level, blocks, next, pad);
      stop := ret != Ok;
    }

    /** From the start of the stream or a block header on. */
    method NextBlock(room: int, ghost level: int, ghost blocks: seq<Sealed>, ghost next: nat, ghost pad: seq<bool>)
      returns (ret: Return)
      requires Valid() && room >= 0 && (stage == MagicNumber || stage == BlockHeader)
      requires Tracks(level, blocks, next, pad) && stage == MagicNumber ==> next == 0
      modifies Repr()
      ensures Valid() && (d == old(d) || (old(d) == null && fresh(Parts(d))))
      ensures Output() == old(Output()) && AvailOut(room) == old(AvailOut(room))
      ensures ret in {Ok, StreamEnd, DataError, MagicError, NeedInput, OutOfBounds}
              && (ret == Ok <==> stage == Delivering)
              && (ret == StreamEnd ==> stage == Finished)
      ensures ret == Ok ==> d != null && d.Remaining() != []
      ensures old(Tracks(level, blocks, next, pad)) ==>
                Tracks(level, blocks, next, pad) && ret == (if next < |blocks| then Ok else StreamEnd)
      ensures ret in {Ok, StreamEnd} && old(Checked()) ==> Checked()
      ensures ret == OutOfBounds && old(Checked()) ==> CanOverrun(r.input)
      ensures old(AtStart()) ==> ret == OutOfBounds
    {
      hide IsSealed, AllSealed, Coming, BlockSum, StreamFrom, Combined, CrcOf, Inputs, DState.Vector, DState.Position,
           DState.Valid, DState.Allocated, DState.Remaining, DState.Truncated, Finalise, Combine, HeaderBits, Owes,
           Tracks, Checked, MagicOverruns, CanOverrun, FirstOverruns;
      ghost var u0, sound, first := r.Unread(), Checked(), stage == MagicNumber;
      if stage == MagicNumber {
        ret := ReadHeader(level, blocks, pad);
        if ret != Ok {
          if FirstOverruns(u0) { FirstHeaded(u0); }
          return;
        }
        SetRoom(room, level, blocks, next, pad);
      }
      ghost var u1 := r.Unread();
      if sound { WhereRead(); }
      if first && FirstOverruns(u0) { FirstBlock(u0, u1, d.blockSize100k); }
      ret := ReadBlockHeader(level, blocks, next, pad);
      if ret == OutOfBounds && sound { SomeOverruns(r.input, u1, d.blockSize100k); }
    }

    /** Between blocks the header has been found. */
    lemma WhereRead()
      requires Valid() && Checked() && stage == BlockHeader
      ensures d != null && Headed(r.input, d.blockSize100k)
    {
      hide HeaderBits, SumsOf, InOrder, Holds, Flatten;
    }

    /** BZ2_bzDecompress. On a stream of given blocks every call succeeds; as long as it does not report the end it has
        filled the whole buffer, and when it does, exactly the input of the blocks has been put out. */
    method BzDecompress(room: int, ghost level: int, ghost blocks: seq<Sealed>, ghost next0: nat, ghost pad: seq<bool>)
      returns (ret: Return, ghost next: nat)
      requires Valid() && room >= 0
      modifies Repr()
      ensures Valid() && (d == old(d) || fresh(Parts(d)))
      ensures old(Output()) <= Output() && |Output()| <= |old(Output())| + room
      ensures old(stage) == Finished ==> ret == SequenceError
      ensures ret == StreamEnd ==> stage == Finished
      ensures old(stage) != Finished && old(Tracks(level, blocks, next0, pad)) ==>
                && Tracks(level, blocks, next, pad) && ret in {Ok, StreamEnd}
                && (ret == Ok ==> stage != Finished && |Output()| == |old(Output())| + room)
                && (ret == StreamEnd ==> Output() == Inputs(blocks))
      ensures ret in {Ok, StreamEnd} && old(Checked()) ==> Checked()
      ensures ret == OutOfBounds && old(Checked()) ==> CanOverrun(r.input)
      ensures old(AtStart()) ==> ret == OutOfBounds
    {
      hide CanOverrun, FirstOverruns, Checked, DState.Valid, DState.Allocated, DState.Remaining, DState.Truncated, Owes,
           Tracks, Inputs, Valid, Rank, AllSealed, IsSealed;
      next := next0;
      if stage == Finished { return SequenceError, next; }
      ghost var good := Tracks(level, blocks, next0, pad);
      ghost var out0, sound := Output(), Checked();
      ghost var first := AtStart();
      if d != null { SetRoom(room, level, blocks, next, pad); }
      while true
        invariant Valid() && (d == old(d) || fresh(Parts(d))) && stage != Finished
        invariant out0 <= Output() && |Output()| + AvailOut(room) == |out0| + room && AvailOut(room) >= 0
        invariant good ==> Tracks(level, blocks, next, pad)
        invariant sound ==> Checked()
        invariant first ==> AtStart()
        decreases AvailOut(room), Rank()
      {
        var stop;
        stop, ret, next := Turn(room, level, blocks, next, pad);
        if stop {
          Standing(level, blocks, next, pad);
          return;
        }
      }
    }

    /** What tracking means where the loop looks. */
    lemma Standing(level: int, blocks: seq<Sealed>, next: nat, pad: seq<bool>)
      requires Valid()
      ensures stage == MagicNumber && Tracks(level, blocks, next, pad) ==> next == 0
      ensures stage == BlockHeader && Tracks(level, blocks, next, pad) ==> next <= |blocks|
      ensures stage == Finished && Tracks(level, blocks, next, pad) ==> Output() == Inputs(blocks)
    {
      hide IsSealed, AllSealed, Coming, BlockSum, StreamFrom, Combined, CrcOf, Inputs, DState.Valid, Owes, HeaderBits,
           IsTail;
    }

    /** What has been put out is the beginning of the input of the blocks. */
    lemma OutputIsPrefix(level: int, blocks: seq<Sealed>, next: nat, pad: seq<bool>)
      requires Valid() && Tracks(level, blocks, next, pad)
      ensures Output() <= Inputs(blocks)
    {
      hide IsSealed, AllSealed, Coming, BlockSum, StreamFrom, Combined, CrcOf, Inputs, DState.Valid, DState.Remaining,
           DState.Truncated, DState.Allocated, HeaderBits, IsTail;
      if stage == Delivering {
        InputsPrefix(blocks, next + 1);
      } else if stage == BlockHeader {
        InputsPrefix(blocks, next);
      }
    }

    /** The caller's buffer. */
    method SetRoom(room: int, ghost level: int, ghost blocks: seq<Sealed>, ghost next: nat, ghost pad: seq<bool>)
      requires Valid() && room >= 0 && d != null
      modifies d`availOut
      ensures Valid() && d == old(d) && d.availOut == room && Rank() == old(Rank())
      ensures old(Tracks(level, blocks, next, pad)) ==> Tracks(level, blocks, next, pad)
      ensures old(Checked()) ==> Checked()
      ensures old(AtStart()) ==> AtStart()
    {
      hide FirstOverruns, OnRecord, BlockOpen, EndMark, EndBehind, Flatten, IsSealed, AllSealed, Coming, BlockSum,
           StreamFrom, Combined, CrcOf, Inputs, DState.Valid, DState.Remaining, DState.Truncated, DState.Allocated,
           HeaderBits, IsTail;
      if stage == Delivering {
        d.GiveRoom(room);
      } else {
        d.availOut := room;
      }
    }

    /** A block is next in the input, but for the first byte of its magic number. */
    ghost predicate BodyComing(level: int, blocks: seq<Sealed>, next: nat, pad: seq<bool>)
      reads this, Repr()
      requires Valid()
    {
      && next < |blocks| && 1 <= level <= 9 && d != null && d.blockSize100k == level && AllSealed(blocks, level)
      && Codes(blocks[next].coding, blocks[next].nInUse) && blocks[next].origPtr >= 0
      && IsSealed(blocks[next], level) && Coming(r.Unread(), BlockTail(blocks, level, next), pad)
    }

    /** The block has been read. */
    ghost predicate BodyDone(level: int, blocks: seq<Sealed>, next: nat, pad: seq<bool>)
      reads this, Repr()
      requires Valid()
    {
      && next < |blocks| && d != null && AllSealed(blocks, level)
      && Coming(r.Unread(), StreamFrom(blocks, level, next + 1), pad)
      && storedBlockCRC == BlockSum(blocks[next]) as int && d.Allocated() && BlockReady(d, blocks[next])
    }
  }

  lemma SealedAt(blocks: seq<Sealed>, level: int, next: nat)
    requires AllSealed(blocks, level) && next < |blocks|
    ensures IsSealed(blocks[next], level)
  {
    hide IsSealed;
  }

  lemma PrefixInputs(blocks: seq<Sealed>, next: nat)
    requires next < |blocks|
    ensures Inputs(blocks[..next + 1]) == Inputs(blocks[..next]) + blocks[next].input
    ensures Combined(blocks[..next + 1]) == Combine(Combined(blocks[..next]), BlockSum(blocks[next]))
  {
    hide Combine, BlockSum;
    assert blocks[..next + 1][..next] == blocks[..next];
  }

  lemma {:induction false} InputsPrefix(blocks: seq<Sealed>, i: nat)
    requires i <= |blocks|
    ensures Inputs(blocks[..i]) <= Inputs(blocks)
    decreases |blocks| - i
  {
    if i == |blocks| {
      assert blocks[..i] == blocks;
    } else {
      PrefixInputs(blocks, i);
      InputsPrefix(blocks, i + 1);
    }
  }

  ghost function Nothing(): Sealed {
    Sealed([], [], [], 0, 0, Coding([], [], [], []))
  }

  lemma BodyIsBlock(s: Sealed, level: int, unread: seq<bool>, bits: seq<bool>, rest: seq<bool>)
    requires Codes(s.coding, s.nInUse) && s.origPtr >= 0 && IsSealed(s, level)
             && Coming(unread, BlockRest(s) + bits, rest)
    ensures BlockComing(s, level, unread, bits, rest)
  {
    hide IsSealed, BlockRest, Coming, Codes, IsTail;
  }

  lemma Padding(z: seq<Byte>, level: int, blocks: seq<Sealed>, x: seq<Byte>) returns (pad: seq<bool>)
    requires IsStreamOf(z, level, blocks, x)
    ensures 1 <= level <= 9 && AllSealed(blocks, level) && |pad| < 8
    ensures Coming(BytesToBits(z), HeaderBits(level) + StreamFrom(blocks, level, 0), pad)
  {
    hide BytesToBits, HeaderBits, BlocksFrom, TrailerBits, IsSealed, AllSealed, Inputs, AllBlocks, Coming, IsTail;
    pad :| |pad| < 8 && BytesToBits(z) == HeaderBits(level) + AllBlocks(blocks, level) + TrailerBits(blocks) + pad;
    BlocksAgree(blocks, level, 0);
    NoBlocks(blocks, level);
    WholeComing(HeaderBits(level), AllBlocks(blocks, level), TrailerBits(blocks), pad);
  }

  lemma WholeComing(header: seq<bool>, blocks: seq<bool>, trailer: seq<bool>, pad: seq<bool>)
    ensures Coming(header + blocks + trailer + pad, header + (blocks + trailer), pad)
  {
  }

  /** The first byte of the next magic number, and everything after it. */
  lemma NextMagic(blocks: seq<Sealed>, level: int, next: nat) returns (want: Byte, tail: seq<bool>)
    requires AllSealed(blocks, level) && next <= |blocks|
    ensures StreamFrom(blocks, level, next) == ToBits(want, 8) + tail
    ensures next < |blocks| ==>
              want == 0x31 && Codes(blocks[next].coding, blocks[next].nInUse) && blocks[next].origPtr >= 0
                                && tail == BlockTail(blocks, level, next)
    ensures next == |blocks| ==> want == 0x17 && tail == TrailerRest(blocks)
  {
    hide ToBits, StreamFrom, IsSealed, AllSealed, BlockTail, TrailerRest, Codes, IsTail;
    if next < |blocks| {
      BlockFollows(blocks, level, next);
      want, tail := 0x31, BlockTail(blocks, level, next);
    } else {
      TrailerFollows(blocks, level);
      want, tail := 0x17, TrailerRest(blocks);
    }
  }

  lemma NothingYet(blocks: seq<Sealed>)
    ensures Inputs(blocks[..0]) == [] && Combined(blocks[..0]) == 0
  {
  }

  lemma NoBlocks(blocks: seq<Sealed>, level: int)
    requires AllSealed(blocks, level)
    ensures AllSealed(blocks[..0], level) && AllBlocks(blocks[..0], level) == []
    ensures forall s: seq<bool> :: [] + s == s
  {
  }
}
