/** A block of compressed data, from the code lengths in its header to its output: tables are built, and
    the data is decoded in whatever pieces input and output space come in. */
module InflateBlock {
  import opened Permutations
  import opened Bits
  import opened CanonicalCodes
  import opened DecodeTables
  import InflateTable
  import opened InflateSpec
  import opened BitAccumulator
  import opened Inflate

  const ENOUGH := ENOUGH_LENS + ENOUGH_DISTS

  /** What the block means: its data decoded with its canonical codes. */
  ghost function Meant(codes: Codes, wsize: nat, data: seq<Byte>): Result {
    Run(codes, wsize, Len, [], Ahead(0, 0, data))
  }

  // ---- distances ----

  /** No distance the format can express. */
  const TOO_FAR := 32769

  /** The distance under way is one the format can express. */
  ghost predicate InFormat(ph: Phase) {
    match ph
    case DistExt(_, offset, extra) => offset + Pow2(extra) <= TOO_FAR
    case Match(_, offset) => offset < TOO_FAR
    case _ => true
  }

  lemma StaysInFormat(codes: Codes, ph: Phase, hist: seq<Byte>, s: Stream)
    requires WellFormed(codes) && InFormat(ph) && Next(codes, ph, hist, s).Go?
    ensures InFormat(Next(codes, ph, hist, s).phase)
  {
    hide Pow2, Skip, Lengths;
    if ph.Dist? {
      forall sym: nat | sym < MaxSymbols(DISTS) && Meaning(DISTS, sym).0 < 64
        ensures 16 <= Meaning(DISTS, sym).0
                && Meaning(DISTS, sym).1 + Pow2(Meaning(DISTS, sym).0 % 16) <= TOO_FAR { DistanceInFormat(sym); }
    }
  }

  lemma DistanceInFormat(sym: nat)
    requires sym < MaxSymbols(DISTS) && Meaning(DISTS, sym).0 < 64
    ensures 16 <= Meaning(DISTS, sym).0
            && Meaning(DISTS, sym).1 + Pow2(Meaning(DISTS, sym).0 % 16) <= TOO_FAR
  {
    hide Pow2;
    DistanceMeaning(sym);
    DistancesTile(sym);
    assert DIST_OP[sym] % 16 == DIST_OP[sym] - 16;
  }

  /** A window of 32K covers every distance. */
  lemma {:induction false} NothingFar(codes: Codes, wsize: nat, ph: Phase, hist: seq<Byte>, s: Stream)
    requires InFormat(ph) && wsize >= TOO_FAR - 1
    ensures Run(codes, wsize, ph, hist, s).far == {}
    decreases s.count, Stage(ph), Left(ph)
  {
    if WellFormed(codes) {
      var r := Next(codes, ph, hist, s);
      if r.Go? {
        StaysInFormat(codes, ph, hist, s);
        NothingFar(codes, wsize, r.phase, r.hist, r.stream);
        OneStep(codes, wsize, ph, hist, s);
      }
    }
  }

  datatype Status = Done | Corrupt | BadLengths | MoreToCome

  /** How the block came out, with spare bytes of room left in the last round: as its data means, except
      that a match which reaches beyond the window may have been refused. */
  ghost predicate Decoded(meant: Result, status: Status, output: seq<Byte>, spare: int) {
    match status
    case Done => meant.output == output && meant.outcome.EndOfBlock?
    case Corrupt =>
      || (meant.output == output && meant.outcome == Invalid)
      || (output <= meant.output && |output| in meant.far)
    case MoreToCome =>
      output <= meant.output && (spare > 0 ==> meant.output == output && meant.outcome == Starved)
    case BadLengths => false
  }

  /** inflate's state for a block with the given lengths, or none if they give no codes. */
  method StartBlock(lens: seq<int>, dists: seq<int>, window: array<Byte>) returns (state: InflateState?)
    requires WellFormed(Codes(lens, dists)) && window.Length > 0
    ensures state == null <==> Verdict(LENS, lens, 9) != 0 || Verdict(DISTS, dists, 6) != 0
    ensures state != null ==> fresh(state) && state.Idle() && state.mode == LEN && state.hist == []
    ensures state != null ==>
              state.window == window && state.codes == Codes(lens, dists) && state.hold == state.bits == 0
  {
    hide Verdict, IsDecoder, TableSize, CodeTable, InflateState.Idle, InflateTable.RoomFor, Longest, RootBits;
    var codes := new Code[ENOUGH];
    var work := new int[288];
    HasRoom(LENS, lens, 9, codes.Length);
    var ret, next, lenbits := InflateTable.InflateTable(LENS, lens, codes, 0, 9, work);
    if ret != 0 { return null; }
    if Longest(lens) > 0 { TableFits(lens); }
    HasRoom(DISTS, dists, 6, codes.Length - next);
    var lencode := codes[0..next];
    var ret', next', distbits := InflateTable.InflateTable(DISTS, dists, codes, next, 6, work);
    if ret' != 0 { return null; }
    assert codes[0..next] == codes[..next] == lencode;
    AcceptedTable(lencode, lenbits, LENS, lens, 9);
    AcceptedTable(codes[next..next'], distbits, DISTS, dists, 6);
    state := new InflateState(lencode, lenbits, codes[next..next'], distbits, window, Codes(lens, dists));
  }

  lemma HasRoom(kind: Kind, lens: seq<int>, bits: nat, size: int)
    requires Lengths(lens) && !kind.CODES? && Enough(kind) <= size
    ensures InflateTable.RoomFor(kind, lens, RootBits(lens, bits), size)
  {
    hide TableSize, RootBits;
  }

  /** The tables for lengths and literals leave room for those for distances. */
  lemma TableFits(lens: seq<int>)
    requires Lengths(lens) && Verdict(LENS, lens, 9) == 0 && Longest(lens) > 0
    ensures TableSize(lens, RootBits(lens, 9)) < ENOUGH_LENS
  {
    hide TableSize, RootBits, Longest;
  }

  /** Inflating a whole block: each round there is one more chunk of input, and room for rooms[k] bytes of
      output; input that was not taken is offered again. */
  method DecodeBlock(lens: seq<int>, dists: seq<int>, wbits: nat, chunks: seq<seq<Byte>>, rooms: seq<nat>)
    returns (status: Status, output: seq<Byte>, spare: int)
    requires WellFormed(Codes(lens, dists)) && |chunks| == |rooms|
    ensures status == BadLengths <==> Verdict(LENS, lens, 9) != 0 || Verdict(DISTS, dists, 6) != 0
    ensures status != BadLengths ==>
              Decoded(Meant(Codes(lens, dists), Pow2(wbits), Flatten(chunks)), status, output, spare)
    ensures wbits >= 15 ==> Meant(Codes(lens, dists), Pow2(wbits), Flatten(chunks)).far == {}
    ensures status == MoreToCome ==> 0 <= spare
  {
    hide Verdict, InflateState.Idle, Run, Ahead, Pow2, Agree, InflateState.FutureFrom, Meant;
    output, spare := [], 0;
    if wbits >= 15 { CoversAll(Codes(lens, dists), wbits, Flatten(chunks)); }
    var window := new Byte[Pow2(wbits)](_ => 0);
    var state := StartBlock(lens, dists, window);
    if state == null { return BadLengths, [], 0; }
    ghost var codes := Codes(lens, dists);
    ghost var meant := Meant(codes, window.Length, Flatten(chunks));
    var rest: seq<Byte> := [];
    Opening(state, Flatten(chunks));
    assert chunks[0..] == chunks && [] + Flatten(chunks) == Flatten(chunks);
    for k := 0 to |chunks|
      invariant fresh(state) && state.window == window && fresh(window) && state.codes == codes && state.Idle()
                && state.hist == output
      invariant state.mode != TYPE && state.mode != BAD
      invariant Agree(meant, state.FutureFrom(rest + Flatten(chunks[k..]))) && spare >= 0
      invariant spare > 0 ==> rest == [] && state.FutureFrom([]) == Result(state.hist, Starved, {})
    {
      var buffer := new Byte[rooms[k]](_ => 0);
      var chunk := rest + chunks[k];
      Flattened(rest, chunks, k);
      ghost var r0 := state.FutureFrom(chunk + Flatten(chunks[k + 1..]));
      var used, made := state.Inflate(chunk, buffer, 0, rooms[k], Flatten(chunks[k + 1..]));
      AgreeTrans(meant, r0, state.FutureFrom(chunk[used..] + Flatten(chunks[k + 1..])));
      output := output + buffer[..made];
      spare := rooms[k] - made;
      rest := chunk[used..];
      if state.mode == TYPE || state.mode == BAD {
        Closing(state, meant, rest + Flatten(chunks[k + 1..]));
        return if state.mode == TYPE then Done else Corrupt, output, spare;
      }
    }
    Closing(state, meant, rest + Flatten(chunks[|chunks|..]));
    assert chunks[|chunks|..] == [] && rest + Flatten<Byte>([]) == rest by { FlattenNone<Byte>(); }
    if spare > 0 { Spared(meant, output, spare); }
    return MoreToCome, output, spare;
  }

  lemma Opening(state: InflateState, data: seq<Byte>)
    requires state.mode == LEN && state.hist == [] && state.hold == state.bits == 0
    ensures Agree(Meant(state.codes, state.window.Length, data), state.FutureFrom(data))
  {
    hide Run, Ahead, Agree;
    Reflexive(state.FutureFrom(data));
  }

  lemma CoversAll(codes: Codes, wbits: nat, data: seq<Byte>)
    requires wbits >= 15
    ensures Meant(codes, Pow2(wbits), data).far == {}
  {
    hide Run, Pow2, Ahead;
    assert Pow2(wbits) >= 32768 by { Pow2Monotonic(15, wbits); Powers(); Pow2Step(13); Pow2Step(14); }
    NothingFar(codes, Pow2(wbits), Len, [], Ahead(0, 0, data));
  }

  lemma Flattened(rest: seq<Byte>, chunks: seq<seq<Byte>>, k: nat)
    requires k < |chunks|
    ensures rest + Flatten(chunks[k..]) == rest + chunks[k] + Flatten(chunks[k + 1..])
  {
    assert chunks[k..][1..] == chunks[k + 1..];
  }

  lemma Spared(meant: Result, output: seq<Byte>, spare: int)
    requires Agree(meant, Result(output, Starved, {}))
    ensures Decoded(meant, MoreToCome, output, spare)
  {
  }

  /** What has been decoded when the state is left. */
  lemma Closing(state: InflateState, meant: Result, bytes: seq<Byte>)
    requires WellFormed(state.codes) && Agree(meant, state.FutureFrom(bytes))
    ensures forall spare :: state.mode == TYPE ==> Decoded(meant, Done, state.hist, spare)
    ensures forall spare :: state.mode == BAD ==> Decoded(meant, Corrupt, state.hist, spare)
    ensures Decoded(meant, MoreToCome, state.hist, 0)
  {
    hide Run, Ahead, NextCode;
    var ph, s := PhaseOf(state.mode, state.length, state.offset, state.extra), Ahead(state.hold, state.bits, bytes);
    OneStep(state.codes, state.window.Length, ph, state.hist, s);
    RunExtends(state.codes, state.window.Length, ph, state.hist, s);
  }
}
