/** The output side of the decompressor: a decoded block is fetched byte by byte through T^(-1), its runs are
    expanded, and the result is handed out in pieces of whatever size the caller has room for. */
module RunLengthDecoder {
  import opened Permutations
  import opened InverseBwt
  import opened InverseVectors
  import opened BlockCrc
  import opened RunLength

  /** The n bytes of the block and the two the decoder may fetch beyond them. */
  ghost function Feed(col: seq<Byte>, o: int): (feed: seq<Byte>)
    requires 0 <= o < |col|
    ensures |feed| == |col| + 2
  {
    Decoded(col, Inverse(col), o, |col| + 2)
  }

  lemma FeedAt(col: seq<Byte>, o: int, m: nat)
    requires 0 <= o < |col| && m < |col| + 2
    ensures Fed(col, o, m) == Feed(col, o)[m]
  {
  }

  /** The output still owed: the rest of the current run, then everything from the byte looked ahead at. */
  ghost function Owed(feed: seq<Byte>, n: nat, ch: Byte, len: nat, used: nat): seq<Byte>
    requires n < |feed| && used >= 1
  {
    Rep(ch, len) + Expanded(feed, n, used - 1)
  }

  lemma OwedStep(feed: seq<Byte>, n: nat, ch: Byte, len: nat, used: nat)
    requires n < |feed| && used >= 1 && len >= 1
    ensures Owed(feed, n, ch, len, used) == [ch] + Owed(feed, n, ch, len - 1, used)
  {
    hide Expanded;
    assert Rep(ch, len) == [ch] + Rep(ch, len - 1);
  }

  lemma OwedRun(feed: seq<Byte>, n: nat, ch: Byte, len: nat, used: nat, used': nat)
    requires 1 <= used <= n < |feed| && used' == Next(feed, n, used - 1) + 1
    requires Rep(ch, len) == Emit(feed, n, used - 1)
    ensures Owed(feed, n, ch, 0, used) == Owed(feed, n, ch, len, used')
    ensures Lands(feed, n, used - 1) == Lands(feed, n, used' - 1)
  {
    hide Next, Emit;
    assert Rep(ch, 0) + Expanded(feed, n, used - 1) == Expanded(feed, n, used - 1);
  }

  lemma OwedNothing(feed: seq<Byte>, n: nat, ch: Byte, used: nat)
    requires n < used <= n + 2 && n < |feed|
    ensures Owed(feed, n, ch, 0, used) == []
    ensures Lands(feed, n, used - 1) == used - 1
  {
  }

  /** What one call has done so far: out went out, the rest of the debt is still owed. */
  ghost predicate Paying(debt: seq<Byte>, out: seq<Byte>, rest: seq<Byte>, crc0: bv32, crc: bv32, room: int,
                         avail: int) {
    debt == out + rest && crc == CrcOf(crc0, out) && room == |out| + avail && avail >= 0
  }

  lemma Pay(debt: seq<Byte>, out: seq<Byte>, ch: Byte, rest: seq<Byte>, crc0: bv32, crc: bv32, room: int, avail: int)
    requires Paying(debt, out, [ch] + rest, crc0, crc, room, avail) && avail > 0
    ensures Paying(debt, out + [ch], rest, crc0, Update(crc, ch as bv32), room, avail - 1)
  {
    hide Update;
    CrcAppend(crc0, out, ch);
    assert out + ([ch] + rest) == (out + [ch]) + rest;
  }

  /** A call that stopped for want of room, or of debt, delivered as much as there was of both. */
  lemma Paid(debt: seq<Byte>, out: seq<Byte>, rest: seq<Byte>, crc0: bv32, crc: bv32, room: int, avail: int)
    requires Paying(debt, out, rest, crc0, crc, room, avail) && (avail == 0 || rest == [])
    ensures var k := if room <= |debt| then room else |debt|;
      0 <= k <= |debt| && out == debt[..k] && rest == debt[k..] && avail == room - k
    ensures crc == CrcOf(crc0, out)
    ensures rest == [] <==> |debt| <= room
    ensures rest == [] && avail > 0 <==> |debt| < room
  {
    assert out == debt[..|out|] && rest == debt[|out|..];
  }

  lemma NothingPaid(debt: seq<Byte>, crc0: bv32, room: int)
    requires room >= 0
    ensures Paying(debt, [], debt, crc0, crc0, room, room)
  {
    assert debt == [] + debt;
  }

  class DState {
    const blockSize100k: int
    const smallDecompress: bool
    const tt: array<int>
    const ll16: array<int>
    const ll4: array<Byte>
    const cftab: array<int>
    const cftabCopy: array<int>
    const unzftab: array<int>
    var tPos: int
    var k0: Byte
    var nblockUsed: int
    var saveNblock: int
    var stateOutCh: Byte
    var stateOutLen: int
    var calculatedBlockCRC: bv32
    var nextOut: seq<Byte>
    var availOut: int
    ghost var col: seq<Byte>
    ghost var origPtr: int

    /** The vector in use holds T^(-1) of the column. */
    ghost predicate Vector()
      reads this, tt, ll16, ll4, cftab
    {
      saveNblock == |col| && VectorFor(col, origPtr)
    }

    ghost predicate VectorFor(column: seq<Byte>, orig: int)
      reads tt, ll16, ll4, cftab
    {
      && 0 <= orig < |column| <= 100000 * blockSize100k
      && (!smallDecompress ==> IsFastVector(tt[..], column, Inverse(column)))
      && (smallDecompress ==>
            IsSmallVector(ll16[..], ll4[..], Inverse(column), orig) && IsCftab(cftab[..], column))
    }

    ghost predicate Valid()
      reads this, tt, ll16, ll4, cftab
    {
      && Vector()
      && Position(tPos, k0, nblockUsed)
      && stateOutLen >= 0 && availOut >= 0
    }

    /** used bytes have been fetched, the last of them being k0 unless the block is exhausted. */
    ghost predicate Position(tPos: int, k0: Byte, used: int)
      reads this
      requires 0 <= origPtr < |col|
    {
      && 1 <= used <= |col| + 2
      && (if smallDecompress then SmallAt(tPos, col, origPtr, used) else FastAt(tPos, col, origPtr, used))
      && (used <= |col| ==> k0 == Feed(col, origPtr)[used - 1])
    }

    /** The output this block still owes. */
    ghost function Remaining(): seq<Byte>
      reads this, tt, ll16, ll4, cftab
      requires Valid()
    {
      Owed(Feed(col, origPtr), |col|, stateOutCh, stateOutLen, nblockUsed)
    }

    /** The block ends where the count of a run should be: only a corrupt stream does that. */
    ghost predicate Truncated()
      reads this, tt, ll16, ll4, cftab
      requires Valid()
    {
      Lands(Feed(col, origPtr), |col|, nblockUsed - 1) == |col| + 1
    }

    /** The bookkeeping of one call, on the locals that the FAST form works with. */
    ghost predicate Serving(debt: seq<Byte>, lands: int, out: seq<Byte>, ch: Byte, len: int, used: int, k0: Byte,
                            tPos: int, crc0: bv32, crc: bv32, room: int, avail: int)
      reads this
      requires 0 <= origPtr < |col|
    {
      && Position(tPos, k0, used) && len >= 0
      && Paying(debt, out, Owed(Feed(col, origPtr), |col|, ch, len, used), crc0, crc, room, avail)
      && Lands(Feed(col, origPtr), |col|, used - 1) == lands
    }

    lemma ServeByte(debt: seq<Byte>, lands: int, out: seq<Byte>, ch: Byte, len: int, used: int, k0: Byte,
                    tPos: int, crc0: bv32, crc: bv32, room: int, avail: int)
      requires 0 <= origPtr < |col|
      requires Serving(debt, lands, out, ch, len, used, k0, tPos, crc0, crc, room, avail) && len > 0 && avail > 0
      ensures Serving(debt, lands, out + [ch], ch, len - 1, used, k0, tPos, crc0, Update(crc, ch as bv32), room,
                      avail - 1)
    {
      hide Paying, Owed, Lands, Update, SmallAt, FastAt, Feed;
      OwedStep(Feed(col, origPtr), |col|, ch, len, used);
      Pay(debt, out, ch, Owed(Feed(col, origPtr), |col|, ch, len - 1, used), crc0, crc, room, avail);
    }

    /** The next run as read from the feed. */
    ghost predicate RunFetched(used: int, ch: Byte, len: int, k0': Byte, used': int, tPos': int)
      reads this
      requires 0 <= origPtr < |col|
    {
      && 1 <= used <= |col| && len >= 1
      && used' == Next(Feed(col, origPtr), |col|, used - 1) + 1
      && Emit(Feed(col, origPtr), |col|, used - 1) == Rep(ch, len)
      && Position(tPos', k0', used')
    }

    lemma ServeRun(debt: seq<Byte>, lands: int, out: seq<Byte>, ch0: Byte, used: int, k0: Byte, tPos: int,
                   crc0: bv32, crc: bv32, room: int, avail: int, ch: Byte, len: int, k0': Byte, used': int, tPos': int)
      requires 0 <= origPtr < |col|
      requires Serving(debt, lands, out, ch0, 0, used, k0, tPos, crc0, crc, room, avail)
      requires RunFetched(used, ch, len, k0', used', tPos')
      ensures Serving(debt, lands, out, ch, len, used', k0', tPos', crc0, crc, room, avail)
      ensures used' > used
    {
      hide Paying, Lands, SmallAt, FastAt, Feed, Emit, Expanded, Take;
      assert Rep(ch0, 0) == Rep(ch, 0);
      OwedRun(Feed(col, origPtr), |col|, ch, len, used, used');
    }

    /** The outcome of a call that has not found corruption, given the state it started from: the contract
        both forms share. */
    ghost predicate Served(nextOut0: seq<Byte>, debt: seq<Byte>, room: int, crc0: bv32, truncated0: bool)
      reads this, tt, ll16, ll4, cftab
      requires Valid()
    {
      var k := if room <= |debt| then room else |debt|;
      && 0 <= k <= |debt|
      && nextOut == nextOut0 + debt[..k]
      && availOut == room - k
      && Remaining() == debt[k..]
      && Truncated() == truncated0
      && calculatedBlockCRC == CrcOf(crc0, debt[..k])
    }

    /** BZ2_bzDecompressInit and the allocations of BZ2_decompress, for blocks of up to 100000 * level bytes. */
    constructor (level: int, small: bool)
      requires 1 <= level <= 9
      ensures blockSize100k == level && smallDecompress == small
      ensures fresh(tt) && fresh(ll16) && fresh(ll4) && fresh(cftab) && fresh(unzftab) && fresh(cftabCopy)
      ensures Allocated() && nextOut == [] && availOut == 0
    {
      blockSize100k, smallDecompress := level, small;
      tt := new int[if small then 0 else 100000 * level];
      ll16 := new int[if small then 100000 * level else 0];
      ll4 := new Byte[if small then (1 + 100000 * level) / 2 else 0];
      cftab, cftabCopy := new int[257], new int[257];
      unzftab := new int[256];
      tPos, k0, nblockUsed, saveNblock, stateOutCh, stateOutLen := 0, 0, 0, 0, 0, 0;
      calculatedBlockCRC, nextOut, availOut := 0, [], 0;
      col, origPtr := [], 0;
    }

    /** The arrays are distinct and of their allocated sizes. */
    ghost predicate Allocated() {
      && 1 <= blockSize100k <= 9
      && (!smallDecompress ==> tt.Length == 100000 * blockSize100k)
      && (smallDecompress ==> ll16.Length == 100000 * blockSize100k && ll4.Length == (1 + 100000 * blockSize100k) / 2)
      && cftab.Length == 257 == cftabCopy.Length && unzftab.Length == 256
      && tt != cftab && tt != unzftab && tt != ll16 && tt != cftabCopy && ll16 != cftab && ll16 != unzftab
          && ll16 != cftabCopy
      && cftab != cftabCopy && cftab != unzftab && cftabCopy != unzftab
      && ll4 as object != tt && ll4 as object != ll16 && ll4 as object != cftab && ll4 as object != cftabCopy
    }

    /** The last column as received, byte counts included. */
    ghost predicate Received(column: seq<Byte>)
      reads this, tt, ll16, unzftab
      requires Allocated()
    {
      && |column| <= 100000 * blockSize100k
      && (forall c | 0 <= c < 256 :: unzftab[c] == multiset(column)[c])
      && (forall k | 0 <= k < |column| :: column[k] == if smallDecompress then ll16[k] else tt[k])
    }

    /** Builds T^(-1) in the form in use; the checks of the counts and of their running sums cannot fail. */
    method BuildVector(nblock: int, orig: int, ghost column: seq<Byte>) returns (ok: bool)
      requires Allocated() && 0 <= orig < nblock == |column| && Received(column)
      modifies tt, ll16, ll4, cftab, cftabCopy
      ensures ok && VectorFor(column, orig)
    {
      hide IsSmallVector, IsFastVector, IsCftab;
      ok := BuildCftab(unzftab, cftab, nblock, column);
      if !ok { return false; }
      if smallDecompress {
        BuildSmall(ll16, ll4, cftab, cftabCopy, nblock, orig, column);
      } else {
        BuildFast(tt, cftab, nblock, column);
      }
    }

    /** The byte every run is compared with, fetched ahead. */
    method FirstByte(orig: int, ghost column: seq<Byte>) returns (dataError: bool, c: Byte, tPos': int)
      requires VectorFor(column, orig)
      ensures !dataError && c == Feed(column, orig)[0]
      ensures if smallDecompress then SmallAt(tPos', column, orig, 1) else FastAt(tPos', column, orig, 1)
    {
      hide IsSmallVector, IsFastVector, IsCftab, FastAt, SmallAt, Fed;
      if smallDecompress {
        StartSmall(orig, column);
        dataError, c, tPos' := GetSmall(ll16, ll4, cftab, orig, blockSize100k, column, orig, 0);
      } else {
        var t := StartFast(tt, orig, column);
        dataError, c, tPos' := GetFast(tt, t, blockSize100k, column, orig, 0);
      }
      FeedAt(column, orig, 0);
    }

    /** The end of BZ2_decompress: checks origPtr, builds T^(-1) and fetches the first byte. */
    method StartOutput(nblock: int, orig: int, ghost column: seq<Byte>) returns (dataError: bool)
      requires Allocated() && nblock == |column| && Received(column) && availOut >= 0
      modifies this, tt, ll16, ll4, cftab, cftabCopy
      ensures Allocated() && nextOut == old(nextOut) && availOut == old(availOut)
      ensures dataError <==> orig < 0 || orig >= nblock
      ensures !dataError ==>
                Valid() && col == column && origPtr == orig && calculatedBlockCRC == INITIAL && nblockUsed == 1
      ensures !dataError ==> Remaining() == Expanded(Feed(column, orig), nblock, 0)
      ensures !dataError ==> (Truncated() <==> Lands(Feed(column, orig), nblock, 0) == nblock + 1)
    {
      hide Expanded, Lands, VectorFor, FastAt, SmallAt, Fed, Feed, Received;
      if orig < 0 || orig >= nblock { return true; }
      var ok := BuildVector(nblock, orig, column);
      if !ok { return true; }
      dataError, k0, tPos := FirstByte(orig, column);
      if dataError { return; }
      stateOutLen, stateOutCh := 0, 0;
      calculatedBlockCRC := INITIAL;
      saveNblock, nblockUsed := nblock, 1;
      col, origPtr := column, orig;
      assert Rep(0, 0) + Expanded(Feed(column, orig), nblock, 0) == Expanded(Feed(column, orig), nblock, 0);
    }

    /** The output is complete: what BZ2_bzDecompress tests before it checks the block checksum. */
    lemma CompleteIff()
      requires Valid()
      ensures nblockUsed == saveNblock + 1 && stateOutLen == 0 <==> Remaining() == [] && !Truncated()
    {
      hide Vector, Take, Next, Expanded, Emit;
      VectorSize();
      var feed := Feed(col, origPtr);
      if nblockUsed <= saveNblock {
        EmitSomething(feed, saveNblock, nblockUsed - 1);
      } else {
        OwedNothing(feed, saveNblock, stateOutCh, nblockUsed);
      }
    }

    /** The caller's next buffer. */
    method GiveRoom(room: int)
      requires Valid() && room >= 0
      modifies `availOut
      ensures Valid() && availOut == room && Remaining() == old(Remaining()) && Truncated() == old(Truncated())
    {
      hide Expanded, Lands, Feed, VectorFor, FastAt, SmallAt;
      availOut := room;
    }

    /** BZ_FINALISE_CRC, in place. */
    method FinaliseCrc()
      requires Valid()
      modifies `calculatedBlockCRC
      ensures Valid() && Remaining() == old(Remaining()) && Truncated() == old(Truncated())
      ensures calculatedBlockCRC == Finalise(old(calculatedBlockCRC))
    {
      hide Expanded, Lands, Feed, VectorFor, FastAt, SmallAt;
      calculatedBlockCRC := Finalise(calculatedBlockCRC);
    }

    /** At the start of a block there is something to put out. */
    lemma HasOutput()
      requires Valid() && nblockUsed == 1
      ensures Remaining() != []
    {
      hide Vector, Take, Emit;
      VectorSize();
      EmitSomething(Feed(col, origPtr), |col|, 0);
    }

    /** BZ_GET_FAST into k1, counting it. */
    method FetchFast(tPos: int, ghost used: int) returns (corrupt: bool, c: Byte, tPos': int)
      requires Vector() && !smallDecompress
      requires 1 <= used < |col| + 2 && FastAt(tPos, col, origPtr, used)
      ensures !corrupt && c == Feed(col, origPtr)[used] && FastAt(tPos', col, origPtr, used + 1)
    {
      hide IsFastVector, FastAt, Fed;
      corrupt, c, tPos' := GetFast(tt, tPos, blockSize100k, col, origPtr, used);
      FeedAt(col, origPtr, used);
    }

    /** BZ_GET_SMALL into k1. */
    method FetchSmall(tPos: int, ghost used: int) returns (corrupt: bool, c: Byte, tPos': int)
      requires Vector() && smallDecompress
      requires 1 <= used < |col| + 2 && SmallAt(tPos, col, origPtr, used)
      ensures !corrupt && c == Feed(col, origPtr)[used] && SmallAt(tPos', col, origPtr, used + 1)
    {
      hide IsSmallVector, SmallAt, Fed, IsCftab;
      corrupt, c, tPos' := GetSmall(ll16, ll4, cftab, tPos, blockSize100k, col, origPtr, used);
      FeedAt(col, origPtr, used);
    }

    /** The start of a run in the FAST form, which compares before it looks for the end of the block. A
        length of 1 stands for the jump to the place where the last byte of a run is written. */
    method NextRunFast(k0: Byte, used: int, tPos: int)
      returns (corrupt: bool, ch: Byte, len: int, k0': Byte, used': int, tPos': int)
      requires Vector() && !smallDecompress
      requires Position(tPos, k0, used) && used <= |col|
      ensures !corrupt && RunFetched(used, ch, len, k0', used', tPos')
    {
      hide Vector, IsFastVector, FastAt, SmallAt, Feed, Take;
      VectorSize();
      ghost var feed, n, p := Feed(col, origPtr), |col|, used - 1;
      var pp := saveNblock + 1;
      var k1: Byte;
      ch, len, k0', used', tPos' := k0, 1, k0, used, tPos;
      corrupt, k1, tPos' := FetchFast(tPos', used');
      if corrupt { return; }
      used' := used' + 1;
      if k1 != k0' { k0' := k1; RunIs(feed, n, p, 1); return; }
      if used' == pp { RunIs(feed, n, p, 1); return; }

      len := 2;
      corrupt, k1, tPos' := FetchFast(tPos', used');
      if corrupt { return; }
      used' := used' + 1;
      if used' == pp { RunIs(feed, n, p, 2); return; }
      if k1 != k0' { k0' := k1; RunIs(feed, n, p, 2); return; }

      len := 3;
      corrupt, k1, tPos' := FetchFast(tPos', used');
      if corrupt { return; }
      used' := used' + 1;
      if used' == pp { RunIs(feed, n, p, 3); return; }
      if k1 != k0' { k0' := k1; RunIs(feed, n, p, 3); return; }

      corrupt, k1, tPos' := FetchFast(tPos', used');
      if corrupt { return; }
      used' := used' + 1;
      len := (k1 as int) + 4;
      corrupt, k0', tPos' := FetchFast(tPos', used');
      if corrupt { return; }
      used' := used' + 1;
      RunIs(feed, n, p, 4);
    }

    /** The start of a run in the SMALL form. */
    method NextRunSmall(k0: Byte, used: int, tPos: int)
      returns (corrupt: bool, ch: Byte, len: int, k0': Byte, used': int, tPos': int)
      requires Vector() && smallDecompress
      requires Position(tPos, k0, used) && used <= |col|
      ensures !corrupt && RunFetched(used, ch, len, k0', used', tPos')
    {
      hide Vector, IsSmallVector, FastAt, SmallAt, Feed, Take;
      VectorSize();
      ghost var feed, n, p := Feed(col, origPtr), |col|, used - 1;
      var pp := saveNblock + 1;
      var k1: Byte;
      ch, len, k0', used', tPos' := k0, 1, k0, used, tPos;
      corrupt, k1, tPos' := FetchSmall(tPos', used');
      if corrupt { return; }
      used' := used' + 1;
      if used' == pp { RunIs(feed, n, p, 1); return; }
      if k1 != k0' { k0' := k1; RunIs(feed, n, p, 1); return; }

      len := 2;
      corrupt, k1, tPos' := FetchSmall(tPos', used');
      if corrupt { return; }
      used' := used' + 1;
      if used' == pp { RunIs(feed, n, p, 2); return; }
      if k1 != k0' { k0' := k1; RunIs(feed, n, p, 2); return; }

      len := 3;
      corrupt, k1, tPos' := FetchSmall(tPos', used');
      if corrupt { return; }
      used' := used' + 1;
      if used' == pp { RunIs(feed, n, p, 3); return; }
      if k1 != k0' { k0' := k1; RunIs(feed, n, p, 3); return; }

      corrupt, k1, tPos' := FetchSmall(tPos', used');
      if corrupt { return; }
      used' := used' + 1;
      len := (k1 as int) + 4;
      corrupt, k0', tPos' := FetchSmall(tPos', used');
      if corrupt { return; }
      used' := used' + 1;
      RunIs(feed, n, p, 4);
    }

    lemma VectorSize()
      requires Vector()
      ensures 0 <= origPtr < |col| == saveNblock
    {
    }

    lemma ValidBounds()
      requires Valid()
      ensures 1 <= nblockUsed <= |col| + 2 && stateOutLen >= 0 && availOut >= 0
    {
    }

    lemma ServeStart()
      requires Valid()
      ensures Serving(Remaining(), Lands(Feed(col, origPtr), |col|, nblockUsed - 1), [], stateOutCh, stateOutLen,
                      nblockUsed, k0, tPos, calculatedBlockCRC, calculatedBlockCRC, availOut, availOut)
    {
      hide Paying, Owed, Lands, SmallAt, FastAt, Feed, IsFastVector, IsSmallVector;
      NothingPaid(Remaining(), calculatedBlockCRC, availOut);
    }

    /** Writes the working copies back. */
    method SaveState(out: seq<Byte>, ch: Byte, len: int, used: int, k0': Byte, tPos': int, crc: bv32, avail: int)
      requires Valid()
      requires Serving(Remaining(), Lands(Feed(col, origPtr), |col|, nblockUsed - 1), out, ch, len, used, k0', tPos',
                       calculatedBlockCRC, crc, availOut, avail)
      requires avail == 0 || (len == 0 && used > |col|)
      modifies this
      ensures Valid() && col == old(col) && origPtr == old(origPtr)
      ensures Served(old(nextOut), old(Remaining()), old(availOut), old(calculatedBlockCRC), old(Truncated()))
    {
      hide Feed, CrcOf, Lands, FastAt, SmallAt, IsFastVector, IsSmallVector, IsCftab, Expanded, Owed, Served,
        Paying;
      ghost var debt, room, crc0, nextOut0 := Remaining(), availOut, calculatedBlockCRC, nextOut;
      ghost var lands := Lands(Feed(col, origPtr), |col|, nblockUsed - 1);
      ServingBounds(debt, lands, out, ch, len, used, k0', tPos', crc0, crc, room, avail);
      calculatedBlockCRC := crc;
      stateOutCh := ch;
      stateOutLen := len;
      nblockUsed := used;
      k0 := k0';
      tPos := tPos';
      nextOut := nextOut + out;
      availOut := avail;
      Saved(debt, lands, out, crc0, room, nextOut0);
    }

    lemma Saved(debt: seq<Byte>, lands: int, out: seq<Byte>, crc0: bv32, room: int, nextOut0: seq<Byte>)
      requires Valid()
      requires Serving(debt, lands, out, stateOutCh, stateOutLen, nblockUsed, k0, tPos, crc0, calculatedBlockCRC,
                       room, availOut)
      requires availOut == 0 || (stateOutLen == 0 && nblockUsed > |col|)
      requires nextOut == nextOut0 + out
      ensures Served(nextOut0, debt, room, crc0, lands == |col| + 1)
    {
      hide Feed, CrcOf, Lands, FastAt, SmallAt, Vector, Expanded, Owed, Paying;
      VectorSize();
      ValidBounds();
      var feed := Feed(col, origPtr);
      if nblockUsed > |col| && stateOutLen == 0 { OwedNothing(feed, |col|, stateOutCh, nblockUsed); }
      Paid(debt, out, Remaining(), crc0, calculatedBlockCRC, room, availOut);
    }

    /** unRLE_obuf_to_output_FAST: works on copies of the fields, which it leaves untouched when it reports
        corruption. It does so as soon as the last byte of a truncated block is out, room or no room. */
    method UnRleFast() returns (corrupt: bool)
      requires Valid() && !smallDecompress
      modifies this
      ensures Valid() && col == old(col) && origPtr == old(origPtr)
      ensures corrupt <==> old(Truncated()) && |old(Remaining())| <= old(availOut)
      ensures !corrupt ==>
                Served(old(nextOut), old(Remaining()), old(availOut), old(calculatedBlockCRC), old(Truncated()))
      ensures corrupt ==> nextOut == old(nextOut) && availOut == old(availOut)
    {
      hide Vector, Serving, Position, RunFetched, Owed, Lands, Feed, Update, CrcOf, Served;
      VectorSize();
      ValidBounds();
      ServeStart();
      ghost var room, crc0, debt := availOut, calculatedBlockCRC, Remaining();
      ghost var lands := Lands(Feed(col, origPtr), |col|, nblockUsed - 1);
      var crc, ch, len, used, c_k0, c_tPos, avail := calculatedBlockCRC, stateOutCh, stateOutLen, nblockUsed, k0, tPos,
          availOut;
      var out: seq<Byte> := [];
      while true
        invariant unchanged(this)
        invariant Serving(debt, lands, out, ch, len, used, c_k0, c_tPos, crc0, crc, room, avail)
        decreases |col| + 3 - used
      {
        ServingBounds(debt, lands, out, ch, len, used, c_k0, c_tPos, crc0, crc, room, avail);
        if len > 0 {
          while true
            invariant unchanged(this)
            invariant Serving(debt, lands, out, ch, len, used, c_k0, c_tPos, crc0, crc, room, avail)
            invariant 1 <= len && 0 <= avail
            decreases len
          {
            if avail == 0 {
              ServingStops(debt, lands, out, ch, len, used, c_k0, c_tPos, crc0, crc, room, avail);
              SaveState(out, ch, len, used, c_k0, c_tPos, crc, avail);
              return false;
            }
            if len == 1 { break; }
            ServeByte(debt, lands, out, ch, len, used, c_k0, c_tPos, crc0, crc, room, avail);
            out := out + [ch];
            crc := Update(crc, ch as bv32);
            len := len - 1;
            avail := avail - 1;
          }
          ServeByte(debt, lands, out, ch, len, used, c_k0, c_tPos, crc0, crc, room, avail);
          out := out + [ch];
          crc := Update(crc, ch as bv32);
          len := 0;
          avail := avail - 1;
        }
        ServingStops(debt, lands, out, ch, len, used, c_k0, c_tPos, crc0, crc, room, avail);
        if used > saveNblock + 1 {
          return true;
        }
        if used == saveNblock + 1 {
          len := 0;
          SaveState(out, ch, len, used, c_k0, c_tPos, crc, avail);
          return false;
        }
        ServingBounds(debt, lands, out, ch, len, used, c_k0, c_tPos, crc0, crc, room, avail);
        ghost var ch0, used0, k00, tPos0 := ch, used, c_k0, c_tPos;
        corrupt, ch, len, c_k0, used, c_tPos := NextRunFast(c_k0, used, c_tPos);
        if corrupt { return true; }
        ServeRun(debt, lands, out, ch0, used0, k00, tPos0, crc0, crc, room, avail, ch, len, c_k0, used, c_tPos);
      }
    }

    /** unRLE_obuf_to_output_SMALL: the same deliveries through the other vector, made directly on the fields.
        Corruption is noticed only with room to spare, so a truncated block that exactly fills the room is
        reported by this form one call later than by the FAST one. */
    method UnRleSmall() returns (corrupt: bool)
      requires Valid() && smallDecompress
      modifies this
      ensures Valid() && col == old(col) && origPtr == old(origPtr)
      ensures corrupt <==> old(Truncated()) && |old(Remaining())| < old(availOut)
      ensures Served(old(nextOut), old(Remaining()), old(availOut), old(calculatedBlockCRC), old(Truncated()))
    {
      hide Vector, Serving, Position, RunFetched, Owed, Lands, Feed, Update, CrcOf, Served;
      VectorSize();
      ValidBounds();
      ServeStart();
      ghost var room, crc0, debt, nextOut0 := availOut, calculatedBlockCRC, Remaining(), nextOut;
      ghost var lands := Lands(Feed(col, origPtr), |col|, nblockUsed - 1);
      ghost var out: seq<Byte> := [];
      assert nextOut == nextOut0 + out;
      while true
        invariant Valid() && col == old(col) && origPtr == old(origPtr) && nextOut == nextOut0 + out
        invariant Serving(debt, lands, out, stateOutCh, stateOutLen, nblockUsed, k0, tPos, crc0, calculatedBlockCRC,
                          room, availOut)
        decreases |col| + 3 - nblockUsed
      {
        ValidBounds();
        ghost var used0 := nblockUsed;
        while true
          invariant Valid() && col == old(col) && origPtr == old(origPtr) && nextOut == nextOut0 + out
          invariant Serving(debt, lands, out, stateOutCh, stateOutLen, nblockUsed, k0, tPos, crc0, calculatedBlockCRC,
                            room, availOut)
          invariant 0 <= stateOutLen && nblockUsed == used0 <= |col| + 2
          decreases stateOutLen
        {
          ValidBounds();
          ServingStops(debt, lands, out, stateOutCh, stateOutLen, nblockUsed, k0, tPos, crc0, calculatedBlockCRC, room,
                       availOut);
          if availOut == 0 {
            Saved(debt, lands, out, crc0, room, nextOut0);
            return false;
          }
          if stateOutLen == 0 { break; }
          PutByte(debt, lands, out, crc0, room);
          out := out + [stateOutCh];
        }
        VectorSize();
        if nblockUsed == saveNblock + 1 {
          Saved(debt, lands, out, crc0, room, nextOut0);
          return false;
        }
        if nblockUsed > saveNblock + 1 {
          Saved(debt, lands, out, crc0, room, nextOut0);
          return true;
        }
        corrupt := StartRunSmall(debt, lands, out, crc0, room);
        if corrupt { return true; }
      }
    }

    /** Writes one byte of the current run. */
    method PutByte(ghost debt: seq<Byte>, ghost lands: int, ghost out: seq<Byte>, ghost crc0: bv32, ghost room: int)
      requires Valid() && stateOutLen > 0 && availOut > 0
      requires Serving(debt, lands, out, stateOutCh, stateOutLen, nblockUsed, k0, tPos, crc0, calculatedBlockCRC, room,
                       availOut)
      modifies this
      ensures Valid() && col == old(col) && origPtr == old(origPtr) && nextOut == old(nextOut) + [stateOutCh]
      ensures stateOutCh == old(stateOutCh) && stateOutLen == old(stateOutLen) - 1 && nblockUsed == old(nblockUsed)
      ensures Serving(debt, lands, out + [stateOutCh], stateOutCh, stateOutLen, nblockUsed, k0, tPos, crc0,
                      calculatedBlockCRC, room, availOut)
    {
      hide Feed, CrcOf, Lands, FastAt, SmallAt, IsFastVector, IsSmallVector, IsCftab, Owed, Paying, Update;
      ServeByte(debt, lands, out, stateOutCh, stateOutLen, nblockUsed, k0, tPos, crc0, calculatedBlockCRC, room,
                availOut);
      nextOut := nextOut + [stateOutCh];
      calculatedBlockCRC := Update(calculatedBlockCRC, stateOutCh as bv32);
      stateOutLen := stateOutLen - 1;
      availOut := availOut - 1;
    }

    method StartRunSmall(ghost debt: seq<Byte>, ghost lands: int, ghost out: seq<Byte>, ghost crc0: bv32,
                         ghost room: int)
      returns (corrupt: bool)
      requires Valid() && smallDecompress && stateOutLen == 0 && nblockUsed <= |col|
      requires Serving(debt, lands, out, stateOutCh, stateOutLen, nblockUsed, k0, tPos, crc0, calculatedBlockCRC, room,
                       availOut)
      modifies this
      ensures !corrupt && Valid() && col == old(col) && origPtr == old(origPtr) && nextOut == old(nextOut)
      ensures old(nblockUsed) < nblockUsed
      ensures Serving(debt, lands, out, stateOutCh, stateOutLen, nblockUsed, k0, tPos, crc0, calculatedBlockCRC, room,
                      availOut)
    {
      hide Feed, CrcOf, Lands, FastAt, SmallAt, IsFastVector, IsSmallVector, IsCftab, Owed, Paying, Next, Emit;
      var ch, len, k, used, t;
      corrupt, ch, len, k, used, t := NextRunSmall(k0, nblockUsed, tPos);
      ServeRun(debt, lands, out, stateOutCh, nblockUsed, k0, tPos, crc0, calculatedBlockCRC, room, availOut, ch, len, k,
               used, t);
      stateOutCh, stateOutLen, k0, nblockUsed, tPos := ch, len, k, used, t;
    }

    lemma ServingBounds(debt: seq<Byte>, lands: int, out: seq<Byte>, ch: Byte, len: int, used: int, k0: Byte,
                        tPos: int, crc0: bv32, crc: bv32, room: int, avail: int)
      requires 0 <= origPtr < |col|
      requires Serving(debt, lands, out, ch, len, used, k0, tPos, crc0, crc, room, avail)
      ensures 1 <= used <= |col| + 2 && len >= 0 && avail >= 0 && Position(tPos, k0, used)
    {
    }

    /** What is known when nothing is left of the current run. */
    lemma ServingStops(debt: seq<Byte>, lands: int, out: seq<Byte>, ch: Byte, len: int, used: int, k0: Byte,
                       tPos: int, crc0: bv32, crc: bv32, room: int, avail: int)
      requires 0 <= origPtr < |col|
      requires Serving(debt, lands, out, ch, len, used, k0, tPos, crc0, crc, room, avail)
      ensures avail == 0 ==> |debt| >= room && (len > 0 ==> |debt| > room)
      ensures len == 0 && used == |col| + 1 ==> |debt| <= room && lands == |col|
      ensures len == 0 && used == |col| + 2 ==> |debt| <= room && lands == |col| + 1
      ensures len == 0 && used > |col| ==> (avail > 0 <==> |debt| < room)
    {
      hide Feed, CrcOf, FastAt, SmallAt, Expanded;
      var feed := Feed(col, origPtr);
      if len == 0 && used > |col| { OwedNothing(feed, |col|, ch, used); }
      if (len == 0 && used > |col|) || avail == 0 {
        Paid(debt, out, Owed(feed, |col|, ch, len, used), crc0, crc, room, avail);
      }
    }
  }

  lemma EmitSomething(feed: seq<Byte>, n: nat, p: nat)
    requires p < n < |feed|
    ensures Emit(feed, n, p) != [] && Expanded(feed, n, p) != []
  {
    hide Take;
  }

  /** The run at p has k equal bytes in front. */
  lemma RunIs(feed: seq<Byte>, n: nat, p: nat, k: nat)
    requires p + k <= n < |feed| && 1 <= k <= 4
    requires forall i | p <= i < p + k :: feed[i] == feed[p]
    requires k == 4 || p + k == n || feed[p + k] != feed[p]
    ensures Take(feed, n, p) == k
    ensures Next(feed, n, p) == if k < 4 then p + k else p + 5
    ensures Emit(feed, n, p) == Rep(feed[p], if k < 4 then k else (feed[p + 4] as int) + 4)
  {
    hide Take;
    TakeIs(feed, n, p, k);
  }
}
