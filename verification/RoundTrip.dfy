/** Compression followed by decompression is the identity. */
module RoundTrip {
  import opened Permutations
  import opened Bits
  import opened StreamChecks
  import opened StreamFormat
  import Compressor
  import Decompressor

  function Total(rooms: seq<nat>): nat {
    if rooms == [] then 0 else Total(rooms[..|rooms| - 1]) + rooms[|rooms| - 1]
  }

  /** A complete stream for x, given in any pieces to the decompressor in either form, yields x piece by piece
      through any sequence of output buffers: every call succeeds and fills its buffer until the end is
      reported, and then exactly x has been put out. */
  method DecompressAll(pieces: seq<seq<Byte>>, ghost level: int, ghost blocks: seq<Sealed>, ghost x: seq<Byte>,
                       small: bool, rooms: seq<nat>)
    returns (out: seq<Byte>, ended: bool)
    requires IsStreamOf(Flatten(pieces), level, blocks, x)
    ensures out <= x
    ensures if ended then out == x else |out| == Total(rooms)
    ensures Total(rooms) > |x| ==> ended
  {
    hide Decompressor.DecompressorState.Tracks, Decompressor.DecompressorState.Valid, IsStreamOf, Inputs, AllSealed,
         IsSealed, Flatten;
    StreamInput(Flatten(pieces), level, blocks, x);
    var s := new Decompressor.DecompressorState(small, pieces);
    ghost var pad := s.Offered(Flatten(pieces), level, blocks, x);
    ghost var next := 0;
    out, ended := [], false;
    assert rooms[..0] == [];
    for i := 0 to |rooms|
      invariant s.Valid() && s.stage != Decompressor.Finished && s.Tracks(level, blocks, next, pad)
      invariant out == s.Output() && |out| == Total(rooms[..i]) && out <= x
      invariant fresh(s.Repr())
    {
      assert rooms[..i + 1][..i] == rooms[..i];
      var ret;
      ret, next := s.BzDecompress(rooms[i], level, blocks, next, pad);
      s.OutputIsPrefix(level, blocks, next, pad);
      out := if s.d == null then [] else s.d.nextOut;
      if ret == Decompressor.StreamEnd { return out, true; }
    }
    assert rooms[..|rooms|] == rooms;
  }

  /** Whatever bytes are given, in whatever pieces, whether or not they are a stream: if calls with the given output
      buffers succeed until one reports the end, then what was put out consists of blocks which have their
      checksums in block headers among the bytes, one behind the other, and all of them have theirs in a trailer
      behind these. The arrays for selectors are left only if there is a block with too many of them; if it is the
      first block, they are. */
  method DecompressAny(pieces: seq<seq<Byte>>, small: bool, rooms: seq<nat>)
    returns (out: seq<Byte>, ret: Decompressor.Return, ghost parts: seq<seq<Byte>>)
    ensures |out| <= Total(rooms)
    ensures ret == Decompressor.StreamEnd ==> out == Flatten(parts) && Vouched(BytesToBits(Flatten(pieces)), parts)
    ensures ret == Decompressor.OutOfBounds ==> Decompressor.CanOverrun(BytesToBits(Flatten(pieces)))
    ensures rooms != [] && Decompressor.FirstOverruns(BytesToBits(Flatten(pieces))) ==>
              ret == Decompressor.OutOfBounds
  {
    hide Decompressor.DecompressorState.Tracks, Decompressor.DecompressorState.Valid,
         Decompressor.DecompressorState.Checked, Vouched, Flatten, BytesToBits, Decompressor.CanOverrun,
         Decompressor.FirstOverruns;
    var s := new Decompressor.DecompressorState(small, pieces);
    out, ret, parts := [], Decompressor.Ok, [];
    assert rooms[..0] == [];
    for i := 0 to |rooms|
      invariant s.Valid() && s.Checked() && ret == Decompressor.Ok && fresh(s.Repr())
      invariant Decompressor.FirstOverruns(s.r.input) ==> i == 0 && s.AtStart()
      invariant out == s.Output() && |out| <= Total(rooms[..i])
    {
      assert rooms[..i + 1][..i] == rooms[..i];
      TotalGrows(rooms, i + 1);
      ghost var next;
      ret, next := s.BzDecompress(rooms[i], 0, [], 0, []);
      out := if s.d == null then [] else s.d.nextOut;
      if ret == Decompressor.StreamEnd {
        s.AllChecked();
        parts := s.checked;
        return;
      }
      if ret != Decompressor.Ok { return; }
    }
    assert rooms[..|rooms|] == rooms;
  }

  lemma {:induction false} TotalGrows(rooms: seq<nat>, i: nat)
    requires i <= |rooms|
    ensures Total(rooms[..i]) <= Total(rooms)
    decreases |rooms| - i
  {
    if i == |rooms| {
      assert rooms[..i] == rooms;
    } else {
      assert rooms[..i + 1][..i] == rooms[..i];
      TotalGrows(rooms, i + 1);
    }
  }

  lemma StreamInput(z: seq<Byte>, level: int, blocks: seq<Sealed>, x: seq<Byte>)
    requires IsStreamOf(z, level, blocks, x)
    ensures x == Inputs(blocks)
  {
    hide AllSealed, Inputs;
  }

  /** Whatever calls to BZ2_bzCompress brought a stream to its end, in whatever pieces the input was offered and the
      output taken, with flushes or without: decompressing what was delivered, cut up in whatever way, gives back
      the input of all the calls. */
  method Restore(e: Compressor.EState, pieces: seq<seq<Byte>>, small: bool, rooms: seq<nat>)
    returns (out: seq<Byte>, ended: bool)
    requires e.Valid() && e.mode == Compressor.Idle && Flatten(pieces) == e.nextOut
    ensures out <= e.consumed
    ensures if ended then out == e.consumed else |out| == Total(rooms)
    ensures Total(rooms) > |e.consumed| ==> ended
  {
    hide Compressor.EState.InputOk, Compressor.EState.OutputOk, IsStreamOf, Flatten;
    e.IdleStream();
    out, ended := DecompressAll(pieces, e.level, e.sealed, e.consumed, small, rooms);
  }

  /** Finishing a stream at once: called over and over, with whatever room there is each time, BZ2_bzCompress
      never reports an error, and comes to the end of the stream. */
  method CompressAll(x: seq<Byte>, level: int, workFactor: int, little: bool, rooms: nat -> nat)
    returns (e: Compressor.EState, pieces: seq<seq<Byte>>)
    requires 1 <= level <= 9 && forall k :: rooms(k) > 0
    ensures e.Valid() && e.mode == Compressor.Idle && e.consumed == x
    ensures Flatten(pieces) == e.nextOut && forall k | 0 <= k < |pieces| :: |pieces[k]| <= rooms(k)
    ensures Compressor.OnlyFull(e.sealed, 0, e.NblockMAX(), true)
  {
    hide Compressor.EState.Valid, IsStreamOf, Flatten, Compressor.OnlyFull;
    e := new Compressor.EState(level, workFactor, little);
    ghost var full := e.NblockMAX();
    assert Compressor.OnlyFull(e.sealed, 0, full, false) by { e.NoneNew(); }
    ghost var sealed0 := e.sealed;
    var ret, used := e.BzCompress(Compressor.BZ_FINISH, x, rooms(0));
    Compressor.OnlyFullOn(sealed0, e.sealed, full, false, e.ended);
    assert [] + x[..used] == x[..used];
    var rest := x[used..];
    pieces := [e.nextOut];
    assert Flatten(pieces) == e.nextOut by { FlattenOne(e.nextOut); }
    while ret != Compressor.StreamEnd
      invariant e.Valid() && fresh(e) && fresh(e.inUse) && fresh(e.w)
      invariant ret == Compressor.StreamEnd ==> e.mode == Compressor.Idle && rest == []
      invariant ret != Compressor.StreamEnd ==> e.mode == Compressor.Finishing && e.state == Compressor.OutputPhase
                                                && e.availInExpect == |rest|
      invariant e.consumed + rest == x && Flatten(pieces) == e.nextOut
      invariant forall k | 0 <= k < |pieces| :: |pieces[k]| <= rooms(k)
      invariant Compressor.OnlyFull(e.sealed, 0, full, e.ended) && Compressor.OnlyFull(e.sealed, 0, full, true)
      decreases ret != Compressor.StreamEnd, |rest|, !e.ended, e.Owing()
    {
      ghost var before := e.nextOut;
      ghost var consumed0, blocks, ended := e.consumed, e.sealed, e.ended;
      var start := |e.nextOut|;
      ret, used := e.BzCompress(Compressor.BZ_FINISH, rest, rooms(|pieces|));
      Compressor.OnlyFullOn(blocks, e.sealed, full, ended, e.ended);
      assert consumed0 + rest[..used] + rest[used..] == consumed0 + rest;
      rest := rest[used..];
      FlattenMore(pieces, e.nextOut[start..]);
      assert before + e.nextOut[start..] == e.nextOut;
      pieces := pieces + [e.nextOut[start..]];
    }
  }

  /** Flushing: called over and over, with whatever room there is each time, BZ2_bzCompress takes all the input,
      finishes the block, and comes back to running with everything delivered but the bits written last. */
  method FlushAll(e: Compressor.EState, x: seq<Byte>, rooms: nat -> nat) returns (pieces: seq<seq<Byte>>)
    requires e.Valid() && e.mode == Compressor.Running && forall k :: rooms(k) > 0
    modifies e, e.inUse, e.w
    ensures e.Valid() && e.mode == Compressor.Running && e.consumed == old(e.consumed) + x == Inputs(e.sealed)
    ensures Compressor.FlushedTo(e.nextOut, e.level, e.sealed) && e.nextOut == old(e.nextOut) + Flatten(pieces)
    ensures forall k | 0 <= k < |pieces| :: |pieces[k]| <= rooms(k)
  {
    hide Compressor.EState.InputOk, Compressor.EState.OutputOk, Compressor.FlushedTo, Inputs, Flatten;
    var start := |e.nextOut|;
    ghost var out0 := e.nextOut;
    var ret, used := e.BzCompress(Compressor.BZ_FLUSH, x, rooms(0));
    var rest := x[used..];
    assert old(e.consumed) + x[..used] + rest == old(e.consumed) + x;
    pieces := [e.nextOut[start..]];
    FlattenOne(e.nextOut[start..]);
    assert out0 + e.nextOut[start..] == e.nextOut;
    while ret != Compressor.RunOk
      invariant e.Valid() && ret in {Compressor.FlushOk, Compressor.RunOk}
      invariant ret == Compressor.RunOk ==>
                  e.mode == Compressor.Running && rest == [] && e.consumed == Inputs(e.sealed)
                  && Compressor.FlushedTo(e.nextOut, e.level, e.sealed)
      invariant ret == Compressor.FlushOk ==>
                  e.mode == Compressor.Flushing && e.state == Compressor.OutputPhase && e.availInExpect == |rest|
                  && e.stateInLen >= 0
      invariant e.consumed + rest == old(e.consumed) + x && e.nextOut == out0 + Flatten(pieces)
      invariant forall k | 0 <= k < |pieces| :: |pieces[k]| <= rooms(k)
      decreases ret != Compressor.RunOk, |rest|, if ret == Compressor.FlushOk then e.stateInLen else 0, e.Owing()
    {
      ghost var before, consumed0 := e.nextOut, e.consumed;
      start := |e.nextOut|;
      ret, used := e.BzCompress(Compressor.BZ_FLUSH, rest, rooms(|pieces|));
      assert consumed0 + rest[..used] + rest[used..] == consumed0 + rest;
      rest := rest[used..];
      FlattenMore(pieces, e.nextOut[start..]);
      assert before + e.nextOut[start..] == e.nextOut;
      assert out0 + (Flatten(pieces) + e.nextOut[start..]) == out0 + Flatten(pieces) + e.nextOut[start..];
      pieces := pieces + [e.nextOut[start..]];
    }
    assert e.consumed + [] == e.consumed;
  }

  /** Everything but the bits written last need not be all whole bytes: a flush without input delivers three of the
      four bytes of the header. */
  method FlushNothing(level: int, workFactor: int, little: bool, room: nat) returns (e: Compressor.EState)
    requires 1 <= level <= 9 && room >= 4
    ensures e.Valid() && e.mode == Compressor.Running && e.sealed == [] && |e.nextOut| == 3
    ensures |HeaderBits(level) + AllBlocks(e.sealed, level)| == 32
  {
    hide Compressor.EState.InputOk, Compressor.EState.OutputOk, BytesToBits, Inputs;
    e := new Compressor.EState(level, workFactor, little);
    var ret, used := e.BzCompress(Compressor.BZ_FLUSH, [], room);
    if ret == Compressor.FlushOk { e.HeaderHeldBack(); }
    HeaderOnly(e.nextOut, e.level, e.sealed);
  }

  lemma HeaderOnly(z: seq<Byte>, level: int, blocks: seq<Sealed>)
    requires Compressor.FlushedTo(z, level, blocks) && Inputs(blocks) == []
    ensures blocks == [] && |z| == 3 && |HeaderBits(level) + AllBlocks(blocks, level)| == 32
  {
    hide BytesToBits, IsSealed, Inputs;
    Compressor.NoBlocks(blocks, level);
    Compressor.WholeBytesDelivered(z, level, blocks);
  }

  lemma FlattenOne<T>(piece: seq<T>)
    ensures Flatten([piece]) == piece
  {
    assert [piece][1..] == [];
  }

  /** Compressing and decompressing x is the identity, for all buffer sizes on both sides. */
  method RoundTrip(x: seq<Byte>, level: int, workFactor: int, little: bool, small: bool, packRooms: nat -> nat,
                   rooms: seq<nat>)
    returns (out: seq<Byte>, ended: bool)
    requires 1 <= level <= 9 && (forall k :: packRooms(k) > 0)
    ensures if ended then out == x else |out| == Total(rooms) && out <= x
    ensures Total(rooms) > |x| ==> ended
  {
    hide Compressor.EState.InputOk, Compressor.EState.OutputOk, IsStreamOf, Flatten;
    var e, pieces := CompressAll(x, level, workFactor, little, packRooms);
    out, ended := Restore(e, pieces, small, rooms);
  }
}
