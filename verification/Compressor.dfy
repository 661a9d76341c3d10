/** The compressing side of a stream: the state machine behind BZ2_bzCompress. */
module Compressor {
  import opened Permutations
  import opened RunLength
  import opened RunLengthEncoder
  import opened BlockCrc
  import opened Bits
  import opened BitStream
  import opened StreamFormat
  import opened BlockFormat
  import opened BlockCompressor
  import opened BlockSizes
  import opened Rotations
  import opened StreamWriter

  datatype Mode = Idle | Running | Flushing | Finishing
  datatype Phase = OutputPhase | InputPhase
  datatype Return = RunOk | FlushOk | FinishOk | StreamEnd | SequenceError | ParamError

  const BZ_RUN := 0
  const BZ_FLUSH := 1
  const BZ_FINISH := 2

  // ---- the output side, on values ----

  /** All bits of the stream so far: nothing before the header is due, then header and blocks, then, at the end, the
      trailer and some padding. */
  ghost predicate StreamSoFar(stream: seq<bool>, level: int, started: bool, ended: bool, blocks: seq<Sealed>) {
    && 1 <= level <= 9 && AllSealed(blocks, level)
    && (!started ==> !ended && stream == [] && blocks == [])
    && (started && !ended ==> stream == HeaderBits(level) + AllBlocks(blocks, level))
    && (ended ==> started && Padded(stream, HeaderBits(level) + AllBlocks(blocks, level) + TrailerBits(blocks)))
  }

  /** stream is bits and fewer than eight more. */
  ghost predicate Padded(stream: seq<bool>, bits: seq<bool>) {
    exists pad: seq<bool> :: |pad| < 8 && stream == bits + pad
  }

  lemma StreamStarts(level: int)
    requires 1 <= level <= 9
    ensures StreamSoFar([], level, false, false, [])
    ensures StreamSoFar(HeaderBits(level), level, true, false, [])
  {
    assert HeaderBits(level) + AllBlocks([], level) == HeaderBits(level);
  }

  lemma StreamGrows(stream: seq<bool>, level: int, blocks: seq<Sealed>, s: Sealed)
    requires StreamSoFar(stream, level, true, false, blocks) && IsSealed(s, level)
    ensures Codes(s.coding, s.nInUse) && s.origPtr >= 0
    ensures StreamSoFar(stream + BlockBits(s), level, true, false, blocks + [s])
    ensures Inputs(blocks + [s]) == Inputs(blocks) + s.input
    ensures Combined(blocks + [s]) == Combine(Combined(blocks), BlockSum(s))
  {
    hide IsSealed, HeaderBits, BlockBits, AllBlocks, AllSealed, Inputs, Combined, Combine, BlockSum, Codes, Padded;
    SealedCodes(s, level);
    BlocksAppend(blocks, level, s);
    assert HeaderBits(level) + AllBlocks(blocks, level) + BlockBits(s) == HeaderBits(level)
           + (AllBlocks(blocks, level) + BlockBits(s));
  }

  lemma StreamEnds(stream: seq<bool>, level: int, blocks: seq<Sealed>, pad: seq<bool>)
    requires StreamSoFar(stream, level, true, false, blocks) && |pad| < 8
    ensures StreamSoFar(stream + TrailerBits(blocks) + pad, level, true, true, blocks)
  {
    hide HeaderBits, TrailerBits, AllBlocks, AllSealed;
  }

  lemma StreamFacts(stream: seq<bool>, level: int, started: bool, ended: bool, blocks: seq<Sealed>)
    requires StreamSoFar(stream, level, started, ended, blocks)
    ensures 1 <= level <= 9 && AllSealed(blocks, level) && (ended ==> started)
            && (!started ==> blocks == [] && stream == [])
  {
  }

  /** The bits written last: the last byte of the header, or the last code of the last block. */
  ghost function LastPiece(blocks: seq<Sealed>): int {
    if blocks == [] then 8 else LastCode(blocks[|blocks| - 1].coding)
  }

  lemma LastOfAll(blocks: seq<Sealed>, s: Sealed)
    ensures LastPiece(blocks + [s]) == LastCode(s.coding)
  {
    hide LastCode;
  }

  /** A flush that has no input to take stores the pending run, or it delivers from the bytes that were ready. */
  ghost predicate NoInputTaken(len0: int, len: int, zbits0: seq<Byte>, zbits: seq<Byte>, undelivered: int) {
    (len == 0 && len0 > 0) || (len == len0 && zbits == zbits0 && undelivered == 0)
  }

  /** What a flush has delivered: all of header and blocks except the bits written last, and fewer than a byte
      before them. */
  ghost predicate FlushedTo(z: seq<Byte>, level: int, blocks: seq<Sealed>) {
    && 1 <= level <= 9 && AllSealed(blocks, level)
    && exists held: seq<bool> :: HeldAfter(|held|, LastPiece(blocks))
         && HeaderBits(level) + AllBlocks(blocks, level) == BytesToBits(z) + held
  }

  /** So it has delivered all whole bytes exactly if the bits written last do not add up to a byte with those
      before them. */
  lemma WholeBytesDelivered(z: seq<Byte>, level: int, blocks: seq<Sealed>)
    requires FlushedTo(z, level, blocks)
    ensures var all, last := |HeaderBits(level) + AllBlocks(blocks, level)|, LastPiece(blocks);
            && all - 8 * |z| == (all - last) % 8 + last
            && (|z| == all / 8 <==> (all - last) % 8 + last < 8)
  {
    hide AllSealed, HeaderBits, AllBlocks, BytesToBits, LastPiece;
    var held: seq<bool> :| HeldAfter(|held|, LastPiece(blocks))
                           && HeaderBits(level) + AllBlocks(blocks, level) == BytesToBits(z) + held;
    assert |BytesToBits(z)| == 8 * |z|;
  }

  /** The size of a block: what is stored of its runs. */
  ghost function SizeOf(s: Sealed): nat { if GoodRuns(s.runs) then |Stored(s.runs)| else 0 }

  /** One more block of this size, or none if there is nothing for it. */
  ghost predicate OneBlockMore(blocks: seq<Sealed>, blocks': seq<Sealed>, size: nat) {
    if size == 0 then blocks' == blocks
    else |blocks'| == |blocks| + 1 && blocks <= blocks' && SizeOf(blocks'[|blocks|]) == size
  }

  /** The blocks from this one on are full, except the last one perhaps. */
  ghost predicate OnlyFull(blocks: seq<Sealed>, from: nat, full: int, last: bool) {
    forall i | from <= i < |blocks| :: SizeOf(blocks[i]) >= full || (last && i == |blocks| - 1)
  }

  lemma StrictlyFull(blocks: seq<Sealed>, from: nat, full: int, last: bool)
    requires OnlyFull(blocks, from, full, last) && (last ==> |blocks| == from)
    ensures OnlyFull(blocks, from, full, false)
  {
    hide SizeOf;
  }

  lemma OnlyFullMore(blocks: seq<Sealed>, blocks': seq<Sealed>, from: nat, full: int, size: nat, last: bool)
    requires OnlyFull(blocks, from, full, false) && from <= |blocks| && OneBlockMore(blocks, blocks', size)
    requires size >= full || last
    ensures blocks <= blocks' && OnlyFull(blocks', from, full, last)
  {
    hide SizeOf;
    forall i | from <= i < |blocks'| ensures SizeOf(blocks'[i]) >= full || (last && i == |blocks'| - 1) {
      if i < |blocks| { assert blocks'[i] == blocks[i]; }
    }
  }

  /** Call by call: nothing comes behind a block that is not full. */
  lemma OnlyFullOn(blocks: seq<Sealed>, blocks': seq<Sealed>, full: int, last: bool, last': bool)
    requires OnlyFull(blocks, 0, full, last) && blocks <= blocks' && OnlyFull(blocks', |blocks|, full, last')
    requires last ==> last' && blocks' == blocks
    ensures OnlyFull(blocks', 0, full, last') && OnlyFull(blocks', 0, full, true)
  {
    hide SizeOf;
    forall i | 0 <= i < |blocks| ensures SizeOf(blocks'[i]) >= full || (last' && i == |blocks'| - 1) {
      assert blocks'[i] == blocks[i];
    }
  }

  class EState {
    const level: int
    const workFactor: int
    const little: bool
    const inUse: array<bool>
    const w: BitWriter
    var mode: Mode
    var state: Phase
    var availInExpect: int
    var stateInCh: int
    var stateInLen: int
    var block: seq<Byte>
    var blockNo: int
    var blockCRC: bv32
    var combinedCRC: bv32
    var stateOutPos: int
    var nextIn: seq<Byte>
    var nextOut: seq<Byte>
    var availOut: int

    /** All input taken so far, the runs of the block being filled, the blocks finished, and of the output: the
        bytes delivered before those now in w, all bits, and whether the trailer has been written. */
    ghost var consumed: seq<Byte>
    ghost var runs: seq<Run>
    ghost var sealed: seq<Sealed>
    ghost var base: seq<Byte>
    ghost var stream: seq<bool>
    ghost var ended: bool

    function NblockMAX(): int { 100000 * level - 19 }

    ghost predicate Started()
      reads `blockNo, `state
    {
      blockNo >= 2 || state == OutputPhase
    }

    /** Input side. While a finished block is being delivered the next one counts as empty. */
    ghost predicate InputOk()
      reads `state, `block, `runs, `stateInCh, `stateInLen, `blockCRC, `consumed, `sealed, inUse
    {
      && inUse.Length == 256 && 1 <= level <= 9
      && (state == InputPhase ==> Filling(block, runs, stateInCh, stateInLen, blockCRC, inUse[..]))
      && (state == InputPhase ==> |block| <= NblockMAX() + 4 || (stateInLen == 0 && |block| <= NblockMAX() + 9))
      && (state == OutputPhase ==> runs == [] && PendingOk([], stateInCh, stateInLen))
      && consumed == Inputs(sealed) + Spelled(runs) + Pending(stateInCh, stateInLen)
    }

    /** The bits so far, and what the writer holds of them. */
    ghost predicate StreamOk()
      reads `blockNo, `stream, `state, `ended, `sealed, `combinedCRC, `base, w
    {
      && blockNo >= 1
      && StreamSoFar(stream, level, Started(), ended, sealed) && combinedCRC == Combined(sealed)
      && (!ended ==> w.Valid() && stream == BytesToBits(base) + w.Written())
      && (ended ==> stream == BytesToBits(base) + BytesToBits(w.zbits))
      && (state == InputPhase ==> w.zbits == [])
      && (!ended && Started() ==> HeldAfter(w.bsLive, LastPiece(sealed)))
    }

    /** Output side. */
    ghost predicate OutputOk()
      reads `blockNo, `availOut, `stream, `state, `ended, `sealed, `combinedCRC, `base, `stateOutPos, `nextOut, w
    {
      StreamOk() && availOut >= 0 && 0 <= stateOutPos <= |w.zbits| && nextOut == base + w.zbits[..stateOutPos]
    }

    /** Where the end of the stream may have been written. */
    ghost predicate ModeOk()
      reads this, w
    {
      && (ended ==> mode in {Finishing, Idle} && state == OutputPhase && availInExpect == 0 && stateInLen == 0)
      && (mode == Idle ==> ended && stateOutPos == |w.zbits|)
      && (state == InputPhase && stateInCh == NO_CHAR ==> runs == [])
      && (state == OutputPhase && stateInLen == 0 ==> ended || mode == Flushing)
    }

    /** A call that delivers the last byte reports the end of the stream. */
    ghost predicate EndReported()
      reads `ended, `mode, `stateOutPos, w
    {
      ended && mode == Finishing ==> stateOutPos < |w.zbits|
    }

    ghost predicate Valid()
      reads this, inUse, w
    {
      InputOk() && OutputOk() && ModeOk() && EndReported()
    }

    /** BZ2_bzCompressInit. */
    constructor (level: int, workFactor: int, little: bool)
      requires 1 <= level <= 9
      ensures Valid() && mode == Running && consumed == [] && nextOut == [] && this.level == level
      ensures fresh(inUse) && fresh(w) && !ended && sealed == []
    {
      this.level, this.workFactor, this.little := level, if workFactor == 0 then 30 else workFactor, little;
      inUse := new bool[256];
      w := new BitWriter();
      mode, state, availInExpect := Running, InputPhase, 0;
      stateInCh, stateInLen, block, blockNo := NO_CHAR, 0, [], 1;
      blockCRC, combinedCRC, stateOutPos := INITIAL, 0, 0;
      nextIn, nextOut, availOut := [], [], 0;
      consumed, runs, sealed, base, stream, ended := [], [], [], [], [], false;
      new;
      for i := 0 to 256
        invariant stateInCh == NO_CHAR && stateInLen == 0 && block == [] && runs == []
        invariant nextIn == [] && nextOut == [] && w.Valid() && w.Written() == [] && w.zbits == []
        invariant mode == Running && state == InputPhase && availInExpect == 0 && blockNo == 1 && blockCRC == INITIAL
        invariant combinedCRC == 0 && stateOutPos == 0 && availOut == 0
        invariant consumed == [] && sealed == [] && base == [] && stream == [] && !ended && inUse.Length == 256
        invariant fresh(inUse) && fresh(w) && forall c | 0 <= c < i :: !inUse[c]
      {
        inUse[i] := false;
      }
      FillingStarts(NO_CHAR, 0, inUse[..]);
      StreamStarts(level);
      assert BytesToBits([]) + w.Written() == [];
    }

    // ---- filling the block ----

    /** add_pair_to_block. */
    method AddPair()
      requires InputOk() && state == InputPhase && stateInCh != NO_CHAR
      modifies this`block, this`blockCRC, inUse
      ensures 0 <= stateInCh < 256 && 1 <= stateInLen <= 255
      ensures block == old(block) + Pair(Run(stateInCh, stateInLen))
      ensures blockCRC == CrcOf(old(blockCRC), Rep(stateInCh, stateInLen))
      ensures inUse.Length == 256 && Marks(old(inUse[..]), inUse[..], Run(stateInCh, stateInLen))
    {
      hide Filling, CrcOf, Pair;
      FillingFacts(block, runs, stateInCh, stateInLen, blockCRC, inUse[..]);
      var ch: Byte := stateInCh;
      PairIs(ch, stateInLen);
      SumPair(ch);
      inUse[stateInCh] := true;
      match stateInLen
      case 1 => block := block + [ch];
      case 2 => block := block + [ch, ch];
      case 3 => block := block + [ch, ch, ch];
      case _ =>
        inUse[stateInLen - 4] := true;
        block := block + [ch, ch, ch, ch, stateInLen - 4];
    }

    /** The pending run joins the stored ones, and nothing is pending. */
    method StorePending()
      requires InputOk() && state == InputPhase && stateInCh != NO_CHAR
      modifies this`block, this`blockCRC, this`runs, this`stateInCh, this`stateInLen, inUse
      ensures InputOk() && stateInCh == NO_CHAR && stateInLen == 0 && |block| <= |old(block)| + 5
      ensures runs == old(runs) + [Run(old(stateInCh), old(stateInLen))] && 0 <= old(stateInCh) < 256
    {
      hide Filling, CrcOf, Pair, Spelled, Inputs;
      ghost var used := inUse[..];
      FillingFacts(block, runs, stateInCh, stateInLen, blockCRC, used);
      ghost var ch: Byte, len, block0, crc0 := stateInCh, stateInLen, block, blockCRC;
      AddPair();
      RunStored(block0, runs, ch, len, crc0, used, inUse[..]);
      PairIs(ch, len);
      Conserved(Inputs(sealed), Spelled(runs), Rep(ch, len), []);
      assert Inputs(sealed) + Spelled(runs) + Rep(ch, len) + [] == Inputs(sealed) + Spelled(runs) + Rep(ch, len);
      runs := runs + [Run(ch, len)];
      stateInCh, stateInLen := NO_CHAR, 0;
    }

    /** flush_RL. */
    method FlushRL()
      requires InputOk() && state == InputPhase
      modifies this`block, this`blockCRC, this`runs, this`stateInCh, this`stateInLen, inUse
      ensures InputOk() && stateInCh == NO_CHAR && stateInLen == 0
    {
      hide Filling, CrcOf, Spelled, Inputs;
      FillingFacts(block, runs, stateInCh, stateInLen, blockCRC, inUse[..]);
      if stateInCh < 256 { StorePending(); }
      stateInCh, stateInLen := NO_CHAR, 0;
    }

    /** A run of one starts after a stored one. */
    method StartRun(c: Byte)
      requires InputOk() && state == InputPhase && stateInCh == NO_CHAR && stateInLen == 0 && Apart(runs, c)
      requires |block| <= NblockMAX() + 4
      modifies this`stateInCh, this`stateInLen, this`consumed
      ensures InputOk() && consumed == old(consumed) + [c]
    {
      hide Filling, CrcOf, Spelled, Inputs;
      RunStarted(block, runs, blockCRC, inUse[..], c);
      stateInCh, stateInLen := c, 1;
      assert Pending(c, 1) == [c];
      assert Inputs(sealed) + Spelled(runs) + [] + [c] == Inputs(sealed) + Spelled(runs) + [c];
      consumed := consumed + [c];
    }

    /** What the macro does in place of StorePending when the run is a single byte. */
    method StoreSingle()
      requires InputOk() && state == InputPhase && stateInLen == 1
      modifies this`block, this`blockCRC, this`runs, this`stateInCh, this`stateInLen, inUse
      ensures InputOk() && stateInCh == NO_CHAR && stateInLen == 0 && |block| == |old(block)| + 1
      ensures runs == old(runs) + [Run(old(stateInCh), 1)] && 0 <= old(stateInCh) < 256
    {
      hide Filling, CrcOf, Pair, Spelled, Inputs, Update;
      ghost var used := inUse[..];
      FillingFacts(block, runs, stateInCh, stateInLen, blockCRC, used);
      var ch: Byte := stateInCh;
      ghost var block0, crc0 := block, blockCRC;
      CrcSingle(crc0, ch);
      PairIs(ch, 1);
      blockCRC := Update(blockCRC, ch as bv32);
      inUse[stateInCh] := true;
      block := block + [ch];
      RunStored(block0, runs, ch, 1, crc0, used, inUse[..]);
      assert Inputs(sealed) + (Spelled(runs) + Rep(ch, 1)) + [] == Inputs(sealed) + Spelled(runs) + Rep(ch, 1);
      runs := runs + [Run(ch, 1)];
      stateInCh, stateInLen := NO_CHAR, 0;
    }

    /** ADD_CHAR_TO_BLOCK. */
    method AddChar(c: Byte)
      requires InputOk() && state == InputPhase && |block| < NblockMAX() && (stateInCh == NO_CHAR ==> runs == [])
      modifies this`block, this`blockCRC, this`runs, this`stateInCh, this`stateInLen, this`consumed, inUse
      ensures InputOk() && consumed == old(consumed) + [c] && stateInCh != NO_CHAR
    {
      hide Filling, CrcOf, Spelled, Inputs;
      FillingFacts(block, runs, stateInCh, stateInLen, blockCRC, inUse[..]);
      if c != stateInCh && stateInLen == 1 {
        ApartFromNew(runs, Run(stateInCh, 1), c);
        StoreSingle();
        StartRun(c);
      } else if c != stateInCh || stateInLen == 255 {
        if stateInCh < 256 {
          ApartFromNew(runs, Run(stateInCh, stateInLen), c);
          StorePending();
        }
        StartRun(c);
      } else {
        RunExtended(block, runs, stateInCh, stateInLen, blockCRC, inUse[..]);
        assert Inputs(sealed) + Spelled(runs) + (Pending(stateInCh, stateInLen) + [c]) == consumed + [c];
        stateInLen := stateInLen + 1;
        consumed := consumed + [c];
      }
    }

    /** copy_input_until_stop: takes input until the block is full, the input ends, or, while flushing or finishing,
        the input announced has been taken. */
    method CopyInput() returns (progress: bool)
      requires InputOk() && state == InputPhase && (stateInCh == NO_CHAR ==> runs == [])
      requires mode != Running ==> availInExpect == |nextIn|
      modifies this`block, this`blockCRC, this`runs, this`stateInCh, this`stateInLen, this`consumed, this`nextIn,
               this`availInExpect, inUse
      ensures InputOk() && (stateInCh == NO_CHAR ==> runs == [])
      ensures consumed + nextIn == old(consumed + nextIn) && |nextIn| <= |old(nextIn)|
      ensures progress <==> |nextIn| < |old(nextIn)|
      ensures mode != Running ==> availInExpect == |nextIn|
      ensures mode == Running ==> availInExpect == old(availInExpect)
      ensures |block| >= NblockMAX() || |nextIn| == 0
      ensures |nextIn| == |old(nextIn)| ==> block == old(block)
    {
      hide Filling, CrcOf, Spelled, Inputs;
      progress := false;
      if mode == Running {
        while true
          invariant InputOk() && (stateInCh == NO_CHAR ==> runs == []) && availInExpect == old(availInExpect)
          invariant consumed + nextIn == old(consumed + nextIn) && |nextIn| <= |old(nextIn)|
          invariant progress <==> |nextIn| < |old(nextIn)|
          invariant !progress ==> block == old(block)
          decreases |nextIn|
        {
          if |block| >= NblockMAX() { break; }
          if |nextIn| == 0 { break; }
          progress := true;
          AddChar(nextIn[0]);
          nextIn := nextIn[1..];
        }
      } else {
        while true
          invariant InputOk() && (stateInCh == NO_CHAR ==> runs == []) && availInExpect == |nextIn|
          invariant consumed + nextIn == old(consumed + nextIn) && |nextIn| <= |old(nextIn)|
          invariant progress <==> |nextIn| < |old(nextIn)|
          invariant !progress ==> block == old(block)
          decreases |nextIn|
        {
          if |block| >= NblockMAX() { break; }
          if |nextIn| == 0 { break; }
          if availInExpect == 0 { break; }
          progress := true;
          AddChar(nextIn[0]);
          nextIn := nextIn[1..];
          availInExpect := availInExpect - 1;
        }
      }
    }

    // ---- delivering ----

    /** copy_output_until_stop. */
    method CopyOutput() returns (progress: bool)
      requires availOut >= 0 && 0 <= stateOutPos <= |w.zbits| && nextOut == base + w.zbits[..stateOutPos]
      modifies this`stateOutPos, this`nextOut, this`availOut
      ensures availOut >= 0 && 0 <= stateOutPos <= |w.zbits| && nextOut == base + w.zbits[..stateOutPos]
      ensures old(nextOut) <= nextOut && |nextOut| + availOut == |old(nextOut)| + old(availOut)
      ensures availOut == 0 || stateOutPos == |w.zbits|
      ensures progress <==> availOut < old(availOut)
      ensures stateOutPos == old(stateOutPos) + (old(availOut) - availOut)
    {
      progress := false;
      while true
        invariant availOut >= 0 && 0 <= stateOutPos <= |w.zbits| && nextOut == base + w.zbits[..stateOutPos]
        invariant old(nextOut) <= nextOut && |nextOut| + availOut == |old(nextOut)| + old(availOut)
        invariant progress <==> availOut < old(availOut)
        invariant stateOutPos == old(stateOutPos) + (old(availOut) - availOut)
        decreases availOut
      {
        if availOut == 0 { break; }
        if stateOutPos >= |w.zbits| { break; }
        progress := true;
        assert w.zbits[..stateOutPos + 1] == w.zbits[..stateOutPos] + [w.zbits[stateOutPos]];
        nextOut := nextOut + [w.zbits[stateOutPos]];
        stateOutPos := stateOutPos + 1;
        availOut := availOut - 1;
      }
    }

    /** The bytes delivered make room for new ones. */
    method TakeDelivered()
      requires w.Valid() && stream == BytesToBits(base) + w.Written() && stateOutPos == |w.zbits|
               && nextOut == base + w.zbits[..stateOutPos]
      modifies this`base, this`stateOutPos, w
      ensures w.Valid() && stream == BytesToBits(base) + w.Written() && w.zbits == [] && stateOutPos == 0
              && nextOut == base
    {
      hide ToBits, BytesToBits, Aligned;
      ghost var done := w.zbits;
      BytesConcat(base, done);
      w.Rewind();
      assert BytesToBits(base) + (BytesToBits(done) + w.Written()) == (BytesToBits(base) + BytesToBits(done))
             + w.Written();
      base := base + done;
      stateOutPos := 0;
    }

    /** prepare_new_block, and back to taking input. */
    method PrepareNewBlock()
      requires InputOk() && OutputOk() && state == OutputPhase && !ended && stateOutPos == |w.zbits|
      modifies this`block, this`blockCRC, this`blockNo, this`stateOutPos, this`base, this`state, inUse, w
      ensures InputOk() && OutputOk() && state == InputPhase && runs == [] && block == [] && nextOut == old(nextOut)
      ensures blockNo >= 2 && w.zbits == [] && stateOutPos == 0
    {
      hide InputOk, OutputOk;
      OutputDelivered();
      OpenBlock();
    }

    method OutputDelivered()
      requires OutputOk() && state == OutputPhase && !ended && stateOutPos == |w.zbits|
      modifies this`stateOutPos, this`base, w
      ensures OutputOk() && w.zbits == [] && stateOutPos == 0
    {
      hide HeldAfter, LastPiece, Combined, ToBits, BytesToBits, StreamSoFar, Aligned;
      TakeDelivered();
      assert w.zbits[..0] == [] && base + [] == base;
    }

    method OpenBlock()
      requires InputOk() && OutputOk() && state == OutputPhase && !ended && w.zbits == [] && stateOutPos == 0
      modifies this`block, this`blockCRC, this`blockNo, this`state, inUse
      ensures InputOk() && OutputOk() && state == InputPhase && runs == [] && block == [] && blockNo >= 2
    {
      hide CrcOf, HeldAfter, LastPiece, Spelled, Inputs, Combined, ToBits, BytesToBits, StreamSoFar, Aligned, Filling,
           PendingOk, Pending, BitWriter.Valid, BitWriter.Written;
      block, blockCRC := [], INITIAL;
      ClearInUse();
      FillingStarts(stateInCh, stateInLen, inUse[..]);
      blockNo := blockNo + 1;
      state := InputPhase;
    }

    method ClearInUse()
      requires inUse.Length == 256
      modifies inUse
      ensures forall c | 0 <= c < 256 :: !inUse[c]
    {
      for i := 0 to 256
        invariant forall c | 0 <= c < i :: !inUse[c]
      {
        inUse[i] := false;
      }
    }

    /** The writer and the bits so far, while a block is being written. */
    ghost predicate Writing(started: bool)
      reads `stream, `base, `sealed, `combinedCRC, `stateOutPos, `nextOut, w
    {
      && w.Valid() && stream == BytesToBits(base) + w.Written() && StreamSoFar(stream, level, started, false, sealed)
      && combinedCRC == Combined(sealed) && stateOutPos == 0 && nextOut == base
      && (started ==> HeldAfter(w.bsLive, LastPiece(sealed)))
    }

    /** The stream header, before the first block. */
    method BeginStream()
      requires Writing(blockNo >= 2) && blockNo >= 1
      modifies this`stream, w
      ensures Writing(true) && w.Valid() && |w.Written()| <= |old(w.Written())| + 32
    {
      hide ToBits, BytesToBits, HeaderBits, Combined, Aligned, StreamSoFar;
      StreamFacts(stream, level, blockNo >= 2, false, sealed);
      if blockNo == 1 {
        NothingWritten(BytesToBits(base), w.Written());
        WriteHeader(w, level);
        StreamStarts(level);
        assert BytesToBits(base) + w.Written() == HeaderBits(level);
        stream := HeaderBits(level);
      }
    }

    /** The block proper. */
    method AddBlock(arr1: array<int>, arr2: array<Byte>, origPtr: int)
      requires Writing(true) && InputOk() && state == InputPhase && 0 < |block| == arr1.Length <= arr2.Length
      requires arr2 as object != arr1 && arr1 as object != w && arr2[..|block|] == block
      requires IsRotationOrder(block, arr1[..]) && 0 <= origPtr < |block| && arr1[origPtr] == 0
      modifies this`stream, this`sealed, this`combinedCRC, this`runs, this`state, this`blockCRC, w, arr1
      ensures Writing(true) && InputOk() && state == OutputPhase && runs == []
      ensures w.Valid() && |w.Written()| <= |old(w.Written())| + 21 * |block| + FIXED_BITS
      ensures OneBlockMore(old(sealed), sealed, |block|)
    {
      hide ToBits, BytesToBits, Combined, Aligned, StreamSoFar, IsRotationOrder, CrcOf, Stored, Spelled, Separated,
           IsSealed, Inputs, Codes, AllSealed, BlockBits, Combine, BlockSum, Filling, GoodRuns, PendingOk,
           BitWriter.Valid, BitWriter.Written, LastPiece, LastCode, HeldAfter;
      SealFacts();
      blockCRC := Finalise(blockCRC);
      combinedCRC := Combine(combinedCRC, blockCRC);
      ghost var w0 := w.Written();
      ghost var s := WriteBlock(w, level, arr1, arr2, inUse, |block|, origPtr, blockCRC, little, runs);
      SealedSum(s);
      BlockSize(s, level);
      SealBlock(s, w0);
      SizeIs(s, block);
    }

    lemma SizeIs(s: Sealed, b: seq<Byte>)
      requires GoodRuns(s.runs) && b == Stored(s.runs)
      ensures SizeOf(s) == |b|
    {
    }

    /** The block just written is the last of the finished ones. */
    method SealBlock(ghost s: Sealed, ghost w0: seq<bool>)
      requires w.Valid() && state == InputPhase && stateOutPos == 0 && nextOut == base && inUse.Length == 256
      requires PendingOk(runs, stateInCh, stateInLen)
               && consumed == Inputs(sealed) + Spelled(runs) + Pending(stateInCh, stateInLen)
      requires IsSealed(s, level) && s.input == Spelled(runs) && Codes(s.coding, s.nInUse) && s.origPtr >= 0
      requires stream == BytesToBits(base) + w0 && w.Written() == w0 + BlockBits(s)
      requires StreamSoFar(stream, level, true, false, sealed) && combinedCRC == Combine(Combined(sealed), BlockSum(s))
      requires HeldAfter(w.bsLive, LastCode(s.coding))
      modifies this`stream, this`sealed, this`runs, this`state
      ensures Writing(true) && InputOk() && state == OutputPhase && runs == [] && sealed == old(sealed) + [s]
    {
      hide ToBits, BytesToBits, Combined, Aligned, StreamSoFar, Stored, Spelled, Separated, IsSealed, Inputs, Codes,
           AllSealed, BlockBits, Combine, BlockSum, Filling, GoodRuns, PendingOk, BitWriter.Valid, BitWriter.Written,
           LastPiece, LastCode, HeldAfter, HeaderBits, AllBlocks, Padded;
      StreamFacts(stream, level, true, false, sealed);
      ghost var pending := Pending(stateInCh, stateInLen);
      StreamGrows(stream, level, sealed, s);
      LastOfAll(sealed, s);
      assert BytesToBits(base) + (w0 + BlockBits(s)) == (BytesToBits(base) + w0) + BlockBits(s);
      stream := stream + BlockBits(s);
      assert Inputs(sealed) + Spelled(runs) + pending == Inputs(sealed + [s]) + [] + pending;
      assert Spelled([]) == [] by { SpelledNothing(); }
      PendingAnywhere(runs, stateInCh, stateInLen);
      sealed := sealed + [s];
      runs := [];
      state := OutputPhase;
    }

    lemma SealFacts()
      requires InputOk() && state == InputPhase
      ensures GoodRuns(runs) && Separated(runs) && block == Stored(runs) && |block| <= 100000 * level - 10
      ensures blockCRC == CrcOf(INITIAL, Spelled(runs)) && PendingOk(runs, stateInCh, stateInLen) && 1 <= level <= 9
      ensures inUse.Length == 256 && InUseOf(inUse[..], block)
    {
    }

    /** An empty block leaves nothing to seal. */
    method SkipBlock()
      requires InputOk() && state == InputPhase && block == []
      modifies this`runs, this`state
      ensures InputOk() && state == OutputPhase && runs == []
    {
      hide CrcOf, Spelled, Separated, Inputs;
      SealFacts();
      StoredNothing(runs);
      PendingAnywhere(runs, stateInCh, stateInLen);
      state := OutputPhase;
    }

    /** The trailer. */
    method EndStream()
      requires Writing(true)
      modifies this`stream, this`ended, w
      ensures ended && StreamSoFar(stream, level, true, true, sealed) && combinedCRC == Combined(sealed)
      ensures stream == BytesToBits(base) + BytesToBits(w.zbits) && stateOutPos == 0 && nextOut == base && w.zbits != []
      ensures |BytesToBits(w.zbits)| <= |old(w.Written())| + 87
    {
      hide ToBits, BytesToBits, HeaderBits, Combined, Aligned, StreamSoFar, TrailerBits;
      TrailerNotEmpty(sealed);
      ghost var w0 := w.Written();
      WriteTrailer(w, combinedCRC, sealed);
      w.Finish();
      ghost var pad := seq(|BytesToBits(w.zbits)| - |w0 + TrailerBits(sealed)|, _ => false);
      StreamEnds(stream, level, sealed, pad);
      assert BytesToBits(base) + (w0 + TrailerBits(sealed) + pad) == BytesToBits(base) + w0 + TrailerBits(sealed) + pad;
      stream := stream + TrailerBits(sealed) + pad;
      ended := true;
      if w.zbits == [] { NoBitsNoBytes(); }
    }

    /** BZ2_compressBlock, and on to delivering: the block is sealed unless it is empty, the header comes first and the
        trailer last. The bytes written fit behind the block in arr2. */
    method CompressBlock(isLast: bool)
      requires InputOk() && OutputOk() && state == InputPhase && !ended
      modifies this`block, this`blockCRC, this`combinedCRC, this`runs, this`sealed, this`stream, this`ended, this`state,
               w
      ensures InputOk() && OutputOk() && state == OutputPhase && runs == [] && ended == isLast
      ensures ended ==> stateOutPos == 0 && w.zbits != []
      ensures |old(block)| + |w.zbits| <= Arr2Size(level)
      ensures OneBlockMore(old(sealed), sealed, |old(block)|)
    {
      hide CrcOf, Inputs, Combined, ToBits, BytesToBits, StreamSoFar, Aligned, Spelled, IsRotationOrder, OutputOk,
           InputOk, Writing, InUseOf, SizeOf, GoodRuns, Separated, PendingOk, Stored, HeldAfter, LastPiece;
      ghost var n := |block|;
      SealFacts();
      OutputOpens();
      if |block| > 0 {
        if blockNo > 1 { RewindEmpty(); }
        var arr1, arr2, origPtr := SortBlock(block, workFactor);
        BeginStream();
        AddBlock(arr1, arr2, origPtr);
      } else {
        BeginStream();
        SkipBlock();
      }
      ghost var bits := |w.Written()|;
      assert 8 * |w.zbits| <= bits;
      if isLast {
        EndStream();
        bits := |BytesToBits(w.zbits)|;
      }
      RoomEnough(level, n, bits);
      OutputCloses();
    }

    lemma OutputOpens()
      requires InputOk() && OutputOk() && state == InputPhase && !ended
      ensures Writing(blockNo >= 2) && blockNo >= 1 && availOut >= 0 && w.zbits == [] && w.Valid() && |block| <= 900000
      ensures |w.Written()| <= 32
    {
      hide CrcOf, Inputs, Combined, ToBits, BytesToBits, Filling, StreamSoFar, Aligned, Spelled;
      assert w.zbits[..stateOutPos] == [] && base + [] == base;
      AlignedSize(w.bsBuff, w.bsLive, w.pending);
    }

    lemma OutputCloses()
      requires state == OutputPhase && blockNo >= 1 && availOut >= 0
      requires !ended ==> Writing(true)
      requires ended ==> StreamSoFar(stream, level, true, true, sealed) && combinedCRC == Combined(sealed)
                         && stream == BytesToBits(base) + BytesToBits(w.zbits) && stateOutPos == 0 && nextOut == base
      ensures OutputOk()
    {
      hide Combined, ToBits, BytesToBits, StreamSoFar, Aligned;
      assert w.zbits[..0] == [] && base + [] == base;
    }

    /** numZ is already zero. */
    method RewindEmpty()
      requires Writing(blockNo >= 2) && w.zbits == []
      modifies w
      ensures Writing(blockNo >= 2) && w.Written() == old(w.Written())
    {
      hide ToBits, StreamSoFar, Combined;
      w.Rewind();
      assert BytesToBits([]) + w.Written() == w.Written();
    }

    // ---- the two loops ----

    ghost predicate Handling()
      reads this, inUse, w
    {
      && InputOk() && OutputOk() && mode != Idle
      && (state == InputPhase && stateInCh == NO_CHAR ==> runs == [])
      && (mode != Running ==> availInExpect == |nextIn|)
      && (ended ==> mode == Finishing && state == OutputPhase && nextIn == [] && stateInLen == 0)
      && (state == OutputPhase && stateInLen == 0 ==> ended || mode == Flushing)
    }

    /** The first half of the loop: delivers, and starts a new block when the old one is out. */
    method OutputStep(ghost sealed0: seq<Sealed>, ghost ended0: bool) returns (stop: bool, progress: bool)
      requires Handling() && state == OutputPhase && BlocksSince(sealed0, ended0)
      modifies this`block, this`blockCRC, this`blockNo, this`stateOutPos, this`base, this`state, this`nextOut,
               this`availOut, inUse, w
      ensures Handling()
      ensures old(nextOut) <= nextOut && |nextOut| + availOut == |old(nextOut)| + old(availOut)
      ensures progress <==> availOut < old(availOut)
      ensures availOut == 0 || stateOutPos == |w.zbits|
      ensures stop && availOut > 0 ==> mode != Running && nextIn == [] && stateInLen == 0
      ensures !stop ==> state == InputPhase && block == [] && stateOutPos == |w.zbits|
      ensures !stop && mode != Running && nextIn == [] ==> stateInLen > 0
      ensures stop && mode == Running ==> state == OutputPhase
      ensures stop && mode == Flushing && stateOutPos == |w.zbits| ==> state == InputPhase
      ensures stop && mode == Finishing ==> state == OutputPhase
      ensures stop && mode != Finishing && state == OutputPhase ==> stateOutPos < |w.zbits|
      ensures stop && state == InputPhase ==> nextIn == [] && stateInLen == 0
      ensures 0 <= stateOutPos <= |w.zbits| && availOut >= 0 && (state == InputPhase ==> blockNo >= 2)
      ensures state == OutputPhase ==>
                stop && w.zbits == old(w.zbits) && stateOutPos == old(stateOutPos) + (old(availOut) - availOut)
    {
      hide InputOk, StreamOk, BlocksSince;
      StateFacts();
      progress := CopyOutput();
      if stateOutPos < |w.zbits| { return true, progress; }
      if mode == Finishing && availInExpect == 0 && IsEmptyRL() { return true, progress; }
      PrepareNewBlock();
      stop := mode == Flushing && availInExpect == 0 && IsEmptyRL();
    }

    /** A block is closed before it is full only when all input has gone into it that was there to be flushed. */
    ghost predicate Closing()
      reads `mode, `ended, `nextIn, `stateInLen
    {
      (mode == Finishing && ended) || (mode == Flushing && nextIn == [] && stateInLen == 0)
    }

    /** Since these blocks were finished, and the trailer was written or not, blocks have been closed as they should. */
    ghost predicate BlocksSince(sealed0: seq<Sealed>, ended0: bool)
      reads `sealed, `mode, `ended, `nextIn, `stateInLen
    {
      && sealed0 <= sealed && OnlyFull(sealed, |sealed0|, NblockMAX(), Closing())
      && (ended0 ==> ended && sealed == sealed0)
    }

    lemma NoneNew()
      ensures BlocksSince(sealed, ended)
      ensures OnlyFull(sealed, |sealed|, NblockMAX(), false) && OnlyFull(sealed, |sealed|, NblockMAX(), true)
    {
    }

    lemma SinceIs(sealed0: seq<Sealed>, ended0: bool)
      requires BlocksSince(sealed0, ended0) && (ended ==> nextIn == [])
      ensures sealed0 <= sealed && (ended0 ==> ended && sealed == sealed0)
      ensures mode == Running ==> OnlyFull(sealed, |sealed0|, NblockMAX(), false)
      ensures mode == Flushing || mode == Finishing ==> OnlyFull(sealed, |sealed0|, NblockMAX(), nextIn == [])
      ensures mode == Finishing ==> OnlyFull(sealed, |sealed0|, NblockMAX(), ended)
    {
      hide SizeOf;
    }

    /** The second half: takes input, and compresses the block when it is full or complete. */
    method InputStep(ghost sealed0: seq<Sealed>, ghost ended0: bool) returns (stop: bool, progress: bool)
      requires Handling() && state == InputPhase && BlocksSince(sealed0, ended0)
      requires sealed == sealed0 || (mode != Running && nextIn == [] ==> stateInLen > 0)
      modifies this`block, this`blockCRC, this`combinedCRC, this`runs, this`sealed, this`stream, this`ended, this`state,
               this`stateInCh, this`stateInLen, this`consumed, this`nextIn, this`availInExpect, inUse, w
      ensures Handling()
      ensures consumed + nextIn == old(consumed + nextIn) && |nextIn| <= |old(nextIn)|
      ensures progress <==> |nextIn| < |old(nextIn)|
      ensures mode == Running ==> availInExpect == old(availInExpect)
      ensures stop ==> state == InputPhase && nextIn == [] && mode == Running && stateOutPos == 0 && w.zbits == []
      ensures !stop ==> state == OutputPhase
      ensures !stop && |nextIn| == |old(nextIn)| && |old(block)| < NblockMAX() ==>
                mode != Running && nextIn == [] && stateInLen == 0
      ensures mode == Finishing && nextIn == [] ==> ended
      ensures ended ==> stateOutPos == 0 && w.zbits != []
      ensures BlocksSince(sealed0, ended0)
    {
      hide InputOk, OutputOk, OnlyFull;
      ghost var before := sealed;
      StrictlyFull(sealed, |sealed0|, NblockMAX(), Closing());
      progress := CopyInput();
      StateFacts();
      if mode != Running && availInExpect == 0 {
        FlushRL();
        ghost var size := |block|;
        CompressBlock(mode == Finishing);
        OnlyFullMore(before, sealed, |sealed0|, NblockMAX(), size, true);
        stop := false;
      } else if |block| >= NblockMAX() {
        FullBlockHasRun();
        ghost var size := |block|;
        CompressBlock(false);
        OnlyFullMore(before, sealed, |sealed0|, NblockMAX(), size, Closing());
        stop := false;
      } else {
        stop := |nextIn| == 0;
        NothingOwed();
      }
    }

    /** handle_compress. */
    method HandleCompress() returns (progress: bool)
      requires Handling()
      modifies this`block, this`blockCRC, this`combinedCRC, this`runs, this`sealed, this`stream, this`ended, this`state,
               this`blockNo, this`stateOutPos, this`base, this`stateInCh, this`stateInLen, this`consumed, this`nextIn,
               this`availInExpect, this`nextOut, this`availOut, inUse, w
      ensures Handling()
      ensures consumed + nextIn == old(consumed + nextIn) && |nextIn| <= |old(nextIn)|
      ensures old(nextOut) <= nextOut && |nextOut| + availOut == |old(nextOut)| + old(availOut)
      ensures progress <==> |nextIn| < |old(nextIn)| || availOut < old(availOut)
      ensures mode == Running ==> availInExpect == old(availInExpect)
      ensures availOut == 0 || stateOutPos == |w.zbits|
      ensures availOut > 0 ==> nextIn == [] && (mode != Running ==> stateInLen == 0)
      ensures 0 <= stateOutPos <= |w.zbits| && availOut >= 0
      ensures mode == Flushing && stateOutPos == |w.zbits| ==> state == InputPhase && blockNo >= 2
      ensures mode == Flushing && state == OutputPhase ==> stateOutPos < |w.zbits|
      ensures mode == Flushing && state == InputPhase ==> nextIn == [] && stateInLen == 0
      ensures mode == Flushing && old(state) == OutputPhase && state == OutputPhase && |nextIn| == |old(nextIn)| ==>
                NoInputTaken(old(stateInLen), stateInLen, old(w.zbits), w.zbits,
                             stateOutPos - old(stateOutPos) - (old(availOut) - availOut))
      ensures mode == Finishing ==> state == OutputPhase
      ensures old(ended) ==> ended
      ensures ended && !old(ended) ==> progress || (stateOutPos == 0 && w.zbits != [])
      ensures mode == Finishing && old(state) == OutputPhase && |nextIn| == |old(nextIn)| && ended == old(ended) ==>
                w.zbits == old(w.zbits) && stateOutPos == old(stateOutPos) + (old(availOut) - availOut)
      ensures BlocksSince(old(sealed), old(ended))
    {
      hide InputOk, OutputOk, Closing, BlocksSince;
      StateFacts();
      NoneNew();
      var progressIn, progressOut := false, false;
      while true
        invariant Handling()
        invariant consumed + nextIn == old(consumed + nextIn) && |nextIn| <= |old(nextIn)|
        invariant old(nextOut) <= nextOut && |nextOut| + availOut == |old(nextOut)| + old(availOut)
        invariant progressIn <==> |nextIn| < |old(nextIn)|
        invariant progressOut <==> availOut < old(availOut)
        invariant mode == Running ==> availInExpect == old(availInExpect)
        invariant availOut >= 0
        invariant mode == Flushing && old(state) == OutputPhase && |nextIn| == |old(nextIn)| ==>
                    state == OutputPhase
                    && NoInputTaken(old(stateInLen), stateInLen, old(w.zbits), w.zbits,
                                    stateOutPos - old(stateOutPos) - (old(availOut) - availOut))
        invariant mode == Flushing ==> state == OutputPhase || state == old(state)
        invariant old(ended) ==> ended
        invariant BlocksSince(old(sealed), old(ended))
        invariant state == InputPhase ==> sealed == old(sealed)
        invariant ended && !old(ended) ==> progressOut || (stateOutPos == 0 && w.zbits != [])
        invariant mode == Finishing && old(state) == OutputPhase && state == OutputPhase && |nextIn| == |old(nextIn)|
                  && ended == old(ended) ==>
                    w.zbits == old(w.zbits) && stateOutPos == old(stateOutPos) + (old(availOut) - availOut)
        decreases |nextIn|, if state == OutputPhase then 0 else 1, stateInLen
      {
        StateFacts();
        if state == OutputPhase {
          var stop, out := OutputStep(old(sealed), old(ended));
          progressOut := progressOut || out;
          if stop { break; }
        }
        StateFacts();
        if state == InputPhase {
          var stop, took := InputStep(old(sealed), old(ended));
          progressIn := progressIn || took;
          if stop { break; }
        }
      }
      progress := progressIn || progressOut;
    }

    /** A block with something in it is followed by a run in progress. */
    lemma FullBlockHasRun()
      requires InputOk() && state == InputPhase && (stateInCh == NO_CHAR ==> runs == []) && |block| >= NblockMAX()
      ensures stateInLen > 0
    {
      hide Spelled, Inputs, CrcOf;
    }

    lemma StateFacts()
      requires Handling() || InputOk()
      ensures Handling() ==> availOut >= 0
      ensures 1 <= level <= 9
      ensures stateInLen >= 0 && (stateInLen > 0 <==> stateInCh < 256) && (stateInCh == NO_CHAR ==> stateInLen == 0)
      ensures stateInCh <= NO_CHAR
    {
      hide Spelled, Inputs, Stored, GoodRuns, Separated, CrcOf;
    }

    // ---- BZ2_bzCompress ----

    /** What a finished stream is. */
    lemma FinishedStream()
      requires InputOk() && OutputOk() && ended && state == OutputPhase && stateInLen == 0 && stateOutPos == |w.zbits|
      ensures IsStreamOf(nextOut, level, sealed, consumed)
    {
      hide IsSealed, BytesToBits, HeaderBits, TrailerBits, AllBlocks, Inputs, AllSealed, Combined, Combine;
      StreamFacts(stream, level, true, true, sealed);
      assert w.zbits[..stateOutPos] == w.zbits;
      BytesConcat(base, w.zbits);
      SpelledNothing();
      assert Inputs(sealed) + [] + [] == Inputs(sealed);
    }

    /** A compressor that has reported the end has put out a complete stream for everything it took. */
    lemma IdleStream()
      requires Valid() && mode == Idle
      ensures IsStreamOf(nextOut, level, sealed, consumed)
    {
      hide InputOk, OutputOk, IsStreamOf;
      FinishedStream();
    }

    lemma FlushedInput()
      requires InputOk() && runs == [] && stateInLen == 0
      ensures consumed == Inputs(sealed)
    {
      hide Inputs, Filling;
      SpelledNothing();
      assert Pending(stateInCh, stateInLen) == [];
      assert Inputs(sealed) + [] + [] == Inputs(sealed);
    }

    /** With no input, a flush delivers less than the header. */
    lemma HeaderHeldBack()
      requires Valid() && consumed == [] && Started() && !ended
      ensures sealed == [] && |nextOut| <= 3
    {
      hide IsSealed, BytesToBits, AllSealed, Combined, Aligned, Filling, Spelled, Inputs, ToBits;
      assert Inputs(sealed) == [];
      NoBlocks(sealed, level);
      assert stream == HeaderBits(level) by { assert HeaderBits(level) + AllBlocks([], level) == HeaderBits(level); }
    }

    lemma NothingOwed()
      requires OutputOk() && state == InputPhase
      ensures w.zbits == [] && stateOutPos == 0
    {
      hide StreamSoFar, Combined, ToBits, BytesToBits, Aligned, LastPiece;
    }

    lemma FlushedOutput()
      requires OutputOk() && state == InputPhase && blockNo >= 2 && !ended
      ensures FlushedTo(nextOut, level, sealed)
    {
      hide IsSealed, BytesToBits, HeaderBits, TrailerBits, AllBlocks, Inputs, AllSealed, Combined, Aligned, ToBits,
           LastPiece, Padded;
      StreamFacts(stream, level, true, false, sealed);
      assert w.zbits[..stateOutPos] == [] && base + [] == base;
      ghost var held := ToBits(w.pending, w.bsLive);
      assert BytesToBits([]) + held == held by { NoBitsNoBytes(); }
      assert HeaderBits(level) + AllBlocks(sealed, level) == BytesToBits(nextOut) + held;
    }

    /** The caller's buffers. */
    method Offer(input: seq<Byte>, room: int)
      requires Valid() && room >= 0
      modifies this`nextIn, this`availOut
      ensures Valid() && nextIn == input && availOut == room
    {
      hide Filling, StreamSoFar, Inputs, Spelled, Combined, ToBits, BytesToBits, Aligned, Pending, Rep, IsSealed,
           AllSealed, HeaderBits, Padded, Stored, GoodRuns, Separated;
      nextIn, availOut := input, room;
    }

    /** The input announced with the first flush or finish. */
    method Announce(m: Mode)
      requires Valid() && mode == Running && m in {Flushing, Finishing}
      modifies this`availInExpect, this`mode
      ensures Valid() && mode == m && availInExpect == |nextIn|
    {
      hide Filling, StreamSoFar, Inputs, Spelled, Combined, ToBits, BytesToBits, Aligned, Pending, Rep, IsSealed,
           AllSealed, HeaderBits, Padded, Stored, GoodRuns, Separated;
      availInExpect := |nextIn|;
      mode := m;
    }

    /** One call. input is what next_in and avail_in offer, room is avail_out. Whatever the calls, nothing of
        the input is lost or reordered (Valid), and a call that ends the stream has delivered a complete stream
        for exactly the input of all calls. */
    method BzCompress(action: int, input: seq<Byte>, room: int) returns (ret: Return, used: int)
      requires Valid() && room >= 0
      modifies this, inUse, w
      ensures Valid() && 0 <= used <= |input| && consumed == old(consumed) + input[..used]
      ensures old(nextOut) <= nextOut && |nextOut| <= |old(nextOut)| + room
      ensures ret == StreamEnd ==> mode == Idle && IsStreamOf(nextOut, level, sealed, consumed)
      ensures ret == StreamEnd <==> old(mode) != Idle && mode == Idle
      ensures old(mode) == Idle ==> ret == SequenceError
      ensures old(mode) == Flushing && (action != BZ_FLUSH || |input| != old(availInExpect)) ==> ret == SequenceError
      ensures old(mode) == Finishing && (action != BZ_FINISH || |input| != old(availInExpect)) ==> ret == SequenceError
      ensures ret in {FlushOk, FinishOk} ==> availInExpect == |input| - used
      ensures ret in {FlushOk, FinishOk} ==> |nextOut| == |old(nextOut)| + room
      ensures action == BZ_FLUSH
              && (old(mode) == Running || (old(mode) == Flushing && |input| == old(availInExpect))) ==>
                ret in {FlushOk, RunOk}
      ensures ret == StreamEnd ==> used == |input|
      ensures old(mode) == Running && action == BZ_RUN ==>
                mode == Running && ret == (if used > 0 || |nextOut| > |old(nextOut)| then RunOk else ParamError)
      ensures ret == RunOk && action == BZ_FLUSH ==>
                mode == Running && used == |input| && consumed == Inputs(sealed) && FlushedTo(nextOut, level, sealed)
      ensures ret == FlushOk ==> mode == Flushing && state == OutputPhase && Owing() > 0 && stateInLen >= 0 && !ended
      ensures ret == FlushOk && room > 0 && old(mode) == Flushing && old(state) == OutputPhase ==>
                used > 0 || stateInLen < old(stateInLen)
                || (stateInLen == old(stateInLen) && Owing() < old(Owing()))
      ensures ret == ParamError && action == BZ_RUN && room > 0 ==> input == []
      ensures action == BZ_FINISH && room > 0
              && (old(mode) == Running || (old(mode) == Finishing && |input| == old(availInExpect))) ==>
                ret in {FinishOk, StreamEnd}
      ensures ret == FinishOk ==> mode == Finishing && state == OutputPhase
      ensures ret == FinishOk && room > 0 && old(mode) == Finishing && old(state) == OutputPhase ==>
                used > 0 || (ended && !old(ended)) || (ended == old(ended) && Owing() < old(Owing()))
      ensures old(mode) == Running && action == BZ_RUN && |nextOut| < |old(nextOut)| + room ==> used == |input|
      ensures old(sealed) <= sealed
              && OnlyFull(sealed, |old(sealed)|, NblockMAX(), action != BZ_RUN && used == |input|)
      ensures ret in {FinishOk, StreamEnd} ==>
                OnlyFull(sealed, |old(sealed)|, NblockMAX(), ended) && (old(ended) ==> ended && sealed == old(sealed))
    {
      hide InputOk, OutputOk, IsStreamOf, OnlyFull, Valid, BitWriter.Valid, FlushedTo;
      NoneNew();
      Offer(input, room);
      assert input[..0] == [] && consumed + [] == consumed;
      if mode == Idle { return SequenceError, 0; }
      if mode == Running {
        if action == BZ_RUN {
          ret, used := RunCall(input);
          return;
        } else if action == BZ_FLUSH {
          Announce(Flushing);
        } else if action == BZ_FINISH {
          Announce(Finishing);
        } else {
          return ParamError, 0;
        }
      }
      if mode == Flushing {
        ret, used := FlushCall(action, input);
      } else {
        ret, used := FinishCall(action, input);
      }
    }

    /** A call that neither flushes nor finishes. */
    method RunCall(input: seq<Byte>) returns (ret: Return, used: int)
      requires Valid() && mode == Running && nextIn == input && availOut >= 0
      modifies this, inUse, w
      ensures Valid() && mode == Running && 0 <= used <= |input| && consumed == old(consumed) + input[..used]
      ensures old(nextOut) <= nextOut && |nextOut| <= |old(nextOut)| + old(availOut)
      ensures ret == if used > 0 || |nextOut| > |old(nextOut)| then RunOk else ParamError
      ensures |nextOut| < |old(nextOut)| + old(availOut) ==> used == |input|
      ensures old(sealed) <= sealed && OnlyFull(sealed, |old(sealed)|, NblockMAX(), false)
    {
      hide InputOk, OutputOk, OnlyFull;
      var progress := HandleCompress();
      SinceIs(old(sealed), old(ended));
      used := Taken(old(consumed), input);
      ret := if progress then RunOk else ParamError;
    }

    /** A call while flushing. */
    method FlushCall(action: int, input: seq<Byte>) returns (ret: Return, used: int)
      requires Valid() && mode == Flushing && nextIn == input && availOut >= 0
      modifies this, inUse, w
      ensures Valid() && 0 <= used <= |input| && consumed == old(consumed) + input[..used]
      ensures old(nextOut) <= nextOut && |nextOut| <= |old(nextOut)| + old(availOut)
      ensures ret in {SequenceError, FlushOk, RunOk} && mode == (if ret == RunOk then Running else Flushing)
      ensures ret == SequenceError <==> action != BZ_FLUSH || |input| != old(availInExpect)
      ensures ret == FlushOk ==> availInExpect == |input| - used && |nextOut| == |old(nextOut)| + old(availOut)
      ensures ret == RunOk ==> used == |input| && consumed == Inputs(sealed) && FlushedTo(nextOut, level, sealed)
      ensures ret == FlushOk ==> state == OutputPhase && Owing() > 0 && stateInLen >= 0 && !ended
      ensures ret == FlushOk && old(availOut) > 0 && old(state) == OutputPhase ==>
                used > 0 || stateInLen < old(stateInLen)
                || (stateInLen == old(stateInLen) && Owing() < old(Owing()))
      ensures old(sealed) <= sealed && OnlyFull(sealed, |old(sealed)|, NblockMAX(), used == |input|)
      ensures action != BZ_FLUSH ==> sealed == old(sealed)
    {
      hide InputOk, OutputOk, OnlyFull;
      NoneNew();
      assert input[..0] == [] && consumed + [] == consumed;
      if action != BZ_FLUSH { return SequenceError, 0; }
      if availInExpect != |nextIn| { return SequenceError, 0; }
      var progress := HandleCompress();
      SinceIs(old(sealed), old(ended));
      used := Taken(old(consumed), input);
      StateFacts();
      if state == InputPhase { NothingOwed(); }
      if availInExpect > 0 || !IsEmptyRL() || stateOutPos < |w.zbits| { return FlushOk, used; }
      FlushedInput();
      FlushedOutput();
      ChangeMode(Running);
      return RunOk, used;
    }

    /** The bytes still to be delivered of those that are ready. */
    function Owing(): nat
      reads `stateOutPos, w
    {
      if stateOutPos <= |w.zbits| then |w.zbits| - stateOutPos else 0
    }

    /** A call while finishing. */
    method FinishCall(action: int, input: seq<Byte>) returns (ret: Return, used: int)
      requires Valid() && mode == Finishing && nextIn == input && availOut >= 0
      modifies this, inUse, w
      ensures Valid() && 0 <= used <= |input| && consumed == old(consumed) + input[..used]
      ensures old(nextOut) <= nextOut && |nextOut| <= |old(nextOut)| + old(availOut)
      ensures ret in {SequenceError, FinishOk, StreamEnd} && mode == (if ret == StreamEnd then Idle else Finishing)
      ensures action != BZ_FINISH || |input| != old(availInExpect) ==> ret == SequenceError
      ensures ret == SequenceError ==> used == 0 && nextOut == old(nextOut)
      ensures ret == FinishOk ==> availInExpect == |input| - used && |nextOut| == |old(nextOut)| + old(availOut)
      ensures ret == StreamEnd ==> used == |input| && IsStreamOf(nextOut, level, sealed, consumed)
      ensures action == BZ_FINISH && |input| == old(availInExpect) && old(availOut) > 0 ==> ret != SequenceError
      ensures ret == FinishOk ==> state == OutputPhase
      ensures ret == FinishOk && old(availOut) > 0 && old(state) == OutputPhase ==>
                used > 0 || (ended && !old(ended)) || (ended == old(ended) && Owing() < old(Owing()))
      ensures old(sealed) <= sealed && OnlyFull(sealed, |old(sealed)|, NblockMAX(), used == |input|)
      ensures action != BZ_FINISH ==> sealed == old(sealed)
      ensures OnlyFull(sealed, |old(sealed)|, NblockMAX(), ended) && (old(ended) ==> ended && sealed == old(sealed))
    {
      hide InputOk, OutputOk, IsStreamOf, OnlyFull;
      NoneNew();
      assert input[..0] == [] && consumed + [] == consumed;
      if action != BZ_FINISH { return SequenceError, 0; }
      if availInExpect != |nextIn| { return SequenceError, 0; }
      var progress := HandleCompress();
      SinceIs(old(sealed), old(ended));
      used := Taken(old(consumed), input);
      if !progress { return SequenceError, used; }
      if availInExpect > 0 || !IsEmptyRL() || stateOutPos < |w.zbits| { return FinishOk, used; }
      StateFacts();
      FinishedStream();
      ChangeMode(Idle);
      return StreamEnd, used;
    }

    /** The end of a flush, or of the stream. */
    method ChangeMode(m: Mode)
      requires InputOk() && OutputOk() && ModeOk()
      requires (m == Running && state == InputPhase) || (m == Idle && ended && stateOutPos == |w.zbits|)
      modifies this`mode
      ensures Valid() && mode == m
    {
      hide Filling, StreamSoFar, Inputs, Spelled, Combined, ToBits, BytesToBits, Aligned, Pending, Rep, IsSealed,
           AllSealed, HeaderBits, Padded, Stored, GoodRuns, Separated;
      mode := m;
    }

    /** How much of the input has gone. */
    method Taken(ghost consumed0: seq<Byte>, input: seq<Byte>) returns (used: int)
      requires consumed + nextIn == consumed0 + input && |nextIn| <= |input|
      ensures used == |input| - |nextIn| && nextIn == input[used..] && consumed == consumed0 + input[..used]
    {
      used := |input| - |nextIn|;
      ghost var all := consumed + nextIn;
      assert nextIn == all[|consumed|..] == (consumed0 + input)[|consumed|..];
      assert consumed == all[..|consumed|] == (consumed0 + input)[..|consumed|];
    }

    /** isempty_RL. */
    predicate IsEmptyRL()
      reads this
    {
      !(stateInCh < 256 && stateInLen > 0)
    }

    /** The checksum takes in the run byte by byte. */
    method SumPair(ch: Byte)
      requires stateInLen >= 0
      modifies this`blockCRC
      ensures blockCRC == CrcOf(old(blockCRC), Rep(ch, stateInLen))
    {
      hide Update;
      ghost var crc0 := blockCRC;
      assert Rep(ch, 0) == [];
      for i := 0 to stateInLen
        invariant blockCRC == CrcOf(crc0, Rep(ch, i))
      {
        CrcAppend(crc0, Rep(ch, i), ch);
        assert Rep(ch, i + 1) == Rep(ch, i) + [ch];
        blockCRC := Update(blockCRC, ch as bv32);
      }
    }
  }

  lemma SealedNotEmpty(s: Sealed, level: int)
    requires IsSealed(s, level)
    ensures s.input != []
  {
    assert s.runs != [] by { assert Stored([]) == []; }
    assert |Rep(s.runs[|s.runs| - 1].ch, s.runs[|s.runs| - 1].len)| >= 1;
  }

  lemma NoBlocks(blocks: seq<Sealed>, level: int)
    requires AllSealed(blocks, level) && Inputs(blocks) == []
    ensures blocks == []
  {
    hide IsSealed;
    if blocks != [] { SealedNotEmpty(blocks[|blocks| - 1], level); }
  }

  /** Moving a run from pending to stored loses nothing. */
  lemma Conserved(inputs: seq<Byte>, spelled: seq<Byte>, run: seq<Byte>, next: seq<Byte>)
    ensures inputs + (spelled + run) + next == inputs + spelled + run + next
  {
  }

  lemma TrailerNotEmpty(blocks: seq<Sealed>)
    ensures TrailerBits(blocks) != []
  {
    hide ToBits, BytesToBits;
  }

  lemma NoBitsNoBytes()
    ensures BytesToBits([]) == []
  {
  }

  lemma NothingWritten(x: seq<bool>, y: seq<bool>)
    ensures x + y == [] ==> x == [] && y == []
  {
    assert |x + y| == |x| + |y|;
  }

  lemma SpelledNothing()
    ensures Spelled([]) == []
  {
  }

  lemma StoredNothing(runs: seq<Run>)
    requires GoodRuns(runs)
    ensures Stored(runs) == [] ==> runs == []
  {
    if runs != [] { PairNotEmpty(runs[|runs| - 1]); }
  }

  lemma PairNotEmpty(r: Run)
    requires 1 <= r.len <= 255
    ensures |Pair(r)| >= 1
  {
  }

  lemma CrcSingle(crc: bv32, ch: Byte)
    ensures CrcOf(crc, Rep(ch, 1)) == Update(crc, ch as bv32)
  {
    hide Update;
    CrcAppend(crc, [], ch);
    assert Rep(ch, 1) == [] + [ch];
  }

  lemma PairIs(ch: Byte, len: int)
    requires 1 <= len <= 255
    ensures Pair(Run(ch, len)) == if len == 1 then [ch] else if len == 2 then [ch, ch] else if len == 3 then
            [ch, ch, ch]
                                  else [ch, ch, ch, ch, len - 4]
  {
  }
}
