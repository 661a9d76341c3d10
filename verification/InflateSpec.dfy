/** What a block of compressed data means (section 3.2.3 of RFC 1951): literals, and matches that repeat
    earlier output byte by byte. */
module InflateSpec {
  import opened Permutations
  import opened BitFields
  import opened Bits
  import opened CanonicalCodes
  import opened ReversedBits
  import opened DecodeTables

  // ---- the bits to come ----

  /** Bits still to be read: the low count bits of value, from the low end. */
  datatype Stream = Stream(value: nat, count: nat)

  /** Bytes as a number, the first byte lowest. */
  function LittleEndian(bytes: seq<Byte>): nat {
    if bytes == [] then 0 else bytes[0] + 256 * LittleEndian(bytes[1..])
  }

  function Skip(s: Stream, n: nat): Stream
    requires n <= s.count
  {
    Stream(High(s.value, n), s.count - n)
  }

  // ---- the block ----

  /** The two codes of the block. */
  datatype Codes = Codes(lens: seq<int>, dists: seq<int>)

  /** Where decoding stands. */
  datatype Phase =
    | Len
    | LenExt(length: nat, extra: nat)
    | Dist(length: nat)
    | DistExt(length: nat, offset: nat, extra: nat)
    | Match(length: nat, offset: nat)
    | Lit(byte: Byte)
    | Ended
    | Failed

  /** How decoding ends: with the end of the block and what follows it, with data that cannot be
      decoded, or with the end of the input. */
  datatype Outcome = EndOfBlock(rest: Stream) | Invalid | Starved

  /** The output, how it ends, and where in it a match repeats what need no longer be in the window. */
  datatype Result = Result(output: seq<Byte>, outcome: Outcome, far: set<nat>)

  ghost predicate WellFormed(codes: Codes) {
    && Lengths(codes.lens) && |codes.lens| <= MaxSymbols(LENS)
    && Lengths(codes.dists) && |codes.dists| <= MaxSymbols(DISTS)
  }

  /** What the next code stands for, if it is complete. */
  datatype Decoded = Coded(token: Token) | NoCode | Unfinished

  ghost function NextCode(kind: Kind, lens: seq<int>, s: Stream): (d: Decoded)
    requires |lens| <= MaxSymbols(kind)
    ensures d.Coded? ==> 0 < d.token.used <= s.count
  {
    if HasCode(lens, s.value) then
      var sym :| Starts(lens, sym, s.value);
      if lens[sym] > s.count then Unfinished
      else Coded(Token(Meaning(kind, sym).0, Meaning(kind, sym).1, lens[sym]))
    else if s.count == 0 then Unfinished else NoCode
  }

  /** The symbol that the next code is the code of. */
  lemma CodedSymbol(kind: Kind, lens: seq<int>, s: Stream) returns (sym: nat)
    requires |lens| <= MaxSymbols(kind) && NextCode(kind, lens, s).Coded?
    ensures sym < |lens|
    ensures var t := NextCode(kind, lens, s).token; (t.op, t.val) == Meaning(kind, sym) && t.used == lens[sym]
  {
    hide Meaning, CodeOf, Reverse;
    sym :| Starts(lens, sym, s.value) && NextCode(kind, lens, s) ==
             Coded(Token(Meaning(kind, sym).0, Meaning(kind, sym).1, lens[sym]));
  }

  function Stage(ph: Phase): nat {
    match ph
    case LenExt(_, _) => 5
    case Dist(_) => 4
    case DistExt(_, _, _) => 3
    case Match(_, _) => 2
    case Lit(_) => 1
    case _ => 0
  }

  function Left(ph: Phase): nat { if ph.Match? then ph.length else 0 }

  /** A phase is over or the next one is reached. */
  datatype Step = Stop(outcome: Outcome) | Go(phase: Phase, hist: seq<Byte>, stream: Stream)

  /** The operations of length codes, and of distance codes: a base and extra bits, or an end. */
  ghost function Next(codes: Codes, ph: Phase, hist: seq<Byte>, s: Stream): (r: Step)
    requires WellFormed(codes)
    ensures r.Go? ==> (r.stream.count < s.count ||
                       (r.stream.count == s.count
                        && (Stage(r.phase) < Stage(ph) || (Stage(r.phase) == Stage(ph) && Left(r.phase) < Left(ph)))))
  {
    match ph
    case Len =>
      var d := NextCode(LENS, codes.lens, s);
      if d.Unfinished? then Stop(Starved)
      else if d.NoCode? then Stop(Invalid)
      else
        var s' := Skip(s, d.token.used);
        if d.token.op == 0 then (if d.token.val < 256 then Go(Lit(d.token.val), hist, s') else Stop(Invalid))
        else if d.token.op == 32 + 64 then Go(Ended, hist, s')
        else if d.token.op >= 64 then Stop(Invalid)
        else Go(LenExt(d.token.val, d.token.op % 16), hist, s')
    case LenExt(length, extra) =>
      if extra > s.count then Stop(Starved) else Go(Dist(length + Low(s.value, extra)), hist, Skip(s, extra))
    case Dist(length) =>
      var d := NextCode(DISTS, codes.dists, s);
      if d.Unfinished? then Stop(Starved)
      else if d.NoCode? || d.token.op >= 64 then Stop(Invalid)
      else Go(DistExt(length, d.token.val, d.token.op % 16), hist, Skip(s, d.token.used))
    case DistExt(length, offset, extra) =>
      if extra > s.count then Stop(Starved) else Go(Match(length, offset + Low(s.value, extra)), hist, Skip(s, extra))
    case Match(length, offset) =>
      if length == 0 then Go(Len, hist, s)
      else if !(0 < offset <= |hist|) then Stop(Invalid)
      else Go(Match(length - 1, offset), hist + [hist[|hist| - offset]], s)
    case Lit(byte) => Go(Len, hist + [byte], s)
    case Ended => Stop(EndOfBlock(s))
    case Failed => Stop(Invalid)
  }

  /** The next byte repeats one that lies further back than the window reaches. */
  predicate Beyond(wsize: nat, ph: Phase, hist: seq<Byte>) {
    ph.Match? && ph.length > 0 && wsize < ph.offset <= |hist|
  }

  function Marked(here: bool, at: nat, r: Result): Result {
    if here then Result(r.output, r.outcome, r.far + {at}) else r
  }

  /** What the rest of the block decodes to, with a window of wsize bytes. */
  ghost function Run(codes: Codes, wsize: nat, ph: Phase, hist: seq<Byte>, s: Stream): Result
    decreases s.count, Stage(ph), Left(ph)
  {
    if !WellFormed(codes) then Result(hist, Invalid, {}) else
    var r := Next(codes, ph, hist, s);
    if r.Stop? then Result(hist, r.outcome, {})
    else Marked(Beyond(wsize, ph, hist), |hist|, Run(codes, wsize, r.phase, r.hist, r.stream))
  }

  /** The same result, or a refusal at a match that reaches beyond the window. */
  ghost predicate Agree(expected: Result, actual: Result) {
    && actual.far <= expected.far
    && (|| (actual.output == expected.output && actual.outcome == expected.outcome)
        || (actual.outcome == Invalid && |actual.output| in expected.far && actual.output <= expected.output))
  }

  lemma Reflexive(r: Result)
    ensures Agree(r, r)
  {
  }

  lemma AgreeTrans(a: Result, b: Result, c: Result)
    requires Agree(a, b) && Agree(b, c)
    ensures Agree(a, c)
  {
  }

  lemma OneStep(codes: Codes, wsize: nat, ph: Phase, hist: seq<Byte>, s: Stream)
    requires WellFormed(codes)
    ensures var r := Next(codes, ph, hist, s);
            Run(codes, wsize, ph, hist, s) == if r.Stop? then Result(hist, r.outcome, {})
                else Marked(Beyond(wsize, ph, hist), |hist|, Run(codes, wsize, r.phase, r.hist, r.stream))
  {
  }

  /** Output only grows. */
  lemma {:induction false} RunExtends(codes: Codes, wsize: nat, ph: Phase, hist: seq<Byte>, s: Stream)
    ensures hist <= Run(codes, wsize, ph, hist, s).output
    decreases s.count, Stage(ph), Left(ph)
  {
    if WellFormed(codes) {
      var r := Next(codes, ph, hist, s);
      if r.Go? {
        RunExtends(codes, wsize, r.phase, r.hist, r.stream);
        NextExtends(codes, ph, hist, s);
        OneStep(codes, wsize, ph, hist, s);
      }
    }
  }

  lemma NextExtends(codes: Codes, ph: Phase, hist: seq<Byte>, s: Stream)
    requires WellFormed(codes) && Next(codes, ph, hist, s).Go?
    ensures hist <= Next(codes, ph, hist, s).hist
  {
    hide NextCode, Skip, Low;
  }

  // ---- repeating earlier output ----

  /** hist with n more bytes, each the one offset places before. */
  ghost function Repeated(hist: seq<Byte>, offset: nat, n: nat): (r: seq<Byte>)
    requires 0 < offset <= |hist|
    ensures |r| == |hist| + n && r[..|hist|] == hist
    decreases n
  {
    if n == 0 then hist else
      var r := Repeated(hist, offset, n - 1);
      assert (r + [r[|r| - offset]])[..|hist|] == r[..|hist|];
      r + [r[|r| - offset]]
  }

  lemma RepeatedNone(hist: seq<Byte>, offset: nat)
    requires 0 < offset <= |hist|
    ensures Repeated(hist, offset, 0) == hist
  {
  }

  lemma RepeatedNext(hist: seq<Byte>, offset: nat, n: nat)
    requires 0 < offset <= |hist|
    ensures var r := Repeated(hist, offset, n); |r| >= offset && Repeated(hist, offset, n + 1) == r + [r[|r| - offset]]
  {
  }

  lemma {:induction false} RepeatedFirst(hist: seq<Byte>, offset: nat, n: nat)
    requires 0 < offset <= |hist| && n > 0
    ensures Repeated(hist, offset, n) == Repeated(hist + [hist[|hist| - offset]], offset, n - 1)
    decreases n
  {
    if n == 1 {
      assert Repeated(hist, offset, 0) == hist;
    } else {
      RepeatedFirst(hist, offset, n - 1);
    }
  }

  /** Copying n bytes of a match leaves the rest of it. */
  lemma {:induction false} RunMatch(codes: Codes, wsize: nat, length: nat, offset: nat, hist: seq<Byte>, s: Stream,
                                    n: nat)
    requires WellFormed(codes) && 0 < offset <= |hist| && n <= length
    ensures var whole, rest := Run(codes, wsize, Match(length, offset), hist, s),
                               Run(codes, wsize, Match(length - n, offset), Repeated(hist, offset, n), s);
            && Agree(whole, rest) && whole.output == rest.output && whole.outcome == rest.outcome
            && (offset <= wsize ==> whole == rest)
    decreases n
  {
    hide Run, NextCode, Repeated, Lengths;
    RepeatedNone(hist, offset);
    if n > 0 {
      OneStep(codes, wsize, Match(length, offset), hist, s);
      RunMatch(codes, wsize, length - 1, offset, hist + [hist[|hist| - offset]], s, n - 1);
      RepeatedFirst(hist, offset, n);
    }
  }

  // ---- what the symbols mean (section 3.2.5 of RFC 1951) ----

  /** The stream goes on with the code of this symbol. */
  ghost predicate Comes(lens: seq<int>, sym: nat, s: Stream): (c: bool)
    ensures c ==> sym < |lens| && 0 < lens[sym] <= s.count
  {
    Lengths(lens) && NotOversubscribed(lens) && Starts(lens, sym, s.value) && lens[sym] <= s.count
  }

  lemma NextIs(kind: Kind, lens: seq<int>, sym: nat, s: Stream)
    requires |lens| <= MaxSymbols(kind) && Comes(lens, sym, s)
    ensures NextCode(kind, lens, s) == Coded(Token(Meaning(kind, sym).0, Meaning(kind, sym).1, lens[sym]))
  {
    hide Starts, Lengths, NotOversubscribed, Meaning;
    assert HasCode(lens, s.value);
    forall t | Starts(lens, t, s.value) ensures t == sym { OneCode(lens, t, sym, s.value); }
    StartsIsSymbol(lens, sym, s.value);
  }

  lemma StartsIsSymbol(lens: seq<int>, sym: int, value: nat)
    requires Starts(lens, sym, value)
    ensures 0 <= sym < |lens| && lens[sym] > 0
  {
  }

  /** A symbol below 256 is that byte. */
  lemma LiteralMeans(codes: Codes, wsize: nat, hist: seq<Byte>, s: Stream, sym: nat)
    requires WellFormed(codes) && Comes(codes.lens, sym, s) && sym < 256
    ensures Run(codes, wsize, Len, hist, s) == Run(codes, wsize, Len, hist + [sym], Skip(s, codes.lens[sym]))
  {
    hide Run, NextCode, Comes, Lengths;
    NextIs(LENS, codes.lens, sym, s);
    OneStep(codes, wsize, Len, hist, s);
    OneStep(codes, wsize, Lit(sym), hist, Skip(s, codes.lens[sym]));
  }

  /** Symbol 256 ends the block. */
  lemma EndMeans(codes: Codes, wsize: nat, hist: seq<Byte>, s: Stream)
    requires WellFormed(codes) && Comes(codes.lens, 256, s)
    ensures Run(codes, wsize, Len, hist, s) == Result(hist, EndOfBlock(Skip(s, codes.lens[256])), {})
  {
    hide Run, NextCode, Comes, Lengths;
    NextIs(LENS, codes.lens, 256, s);
    OneStep(codes, wsize, Len, hist, s);
    OneStep(codes, wsize, Ended, hist, Skip(s, codes.lens[256]));
  }

  /** Symbols 257 + k, with their extra bits, are lengths, and a distance follows. */
  lemma LengthMeans(codes: Codes, wsize: nat, hist: seq<Byte>, s: Stream, k: nat)
    requires WellFormed(codes) && Comes(codes.lens, 257 + k, s) && k < 29
    requires LengthBits(k) <= s.count - codes.lens[257 + k]
    ensures var extra := Skip(s, codes.lens[257 + k]);
            Run(codes, wsize, Len, hist, s) ==
            Run(codes, wsize, Dist(LengthValue(k, Low(extra.value, LengthBits(k)))), hist, Skip(extra, LengthBits(k)))
  {
    hide Run, NextCode, Comes, Lengths, Low, Pow2, Meaning, LengthBits, LengthValue;
    NextIs(LENS, codes.lens, 257 + k, s);
    LengthEntry(k);
    OneStep(codes, wsize, Len, hist, s);
    var extra := Skip(s, codes.lens[257 + k]);
    OneStep(codes, wsize, LenExt(LengthValue(k, 0), LengthBits(k)), hist, extra);
    LengthExtra(k, extra.value);
  }

  lemma LengthEntry(k: nat)
    requires k < 29
    ensures Meaning(LENS, 257 + k) == (16 + LengthBits(k), LengthValue(k, 0)) && LengthBits(k) <= 5
  {
    hide LengthValue;
    LengthForm(k);
  }

  lemma LengthExtra(k: nat, value: nat)
    requires k < 29
    ensures LengthValue(k, 0) + Low(value, LengthBits(k)) == LengthValue(k, Low(value, LengthBits(k)))
  {
    hide Pow2, Low;
    if LengthBits(k) == 0 { NoExtra(value); }
  }

  lemma DistanceEntry(k: nat)
    requires k < 30
    ensures Meaning(DISTS, k) == (16 + DistanceBits(k), DistanceValue(k, 0)) && DistanceBits(k) <= 13
  {
    hide DistanceValue;
    DistanceForm(k);
  }

  lemma DistanceExtra(k: nat, value: nat)
    requires k < 30
    ensures DistanceValue(k, 0) + Low(value, DistanceBits(k)) == DistanceValue(k, Low(value, DistanceBits(k)))
  {
    hide Pow2, Low;
    if DistanceBits(k) == 0 { NoExtra(value); }
  }

  lemma NoExtra(value: nat)
    ensures Low(value, 0) == 0
  {
    Pow2Of1();
  }

  /** Distance symbols k, with their extra bits, are distances. */
  lemma DistanceMeans(codes: Codes, wsize: nat, length: nat, hist: seq<Byte>, s: Stream, k: nat)
    requires WellFormed(codes) && Comes(codes.dists, k, s) && k < 30
    requires DistanceBits(k) <= s.count - codes.dists[k]
    ensures var extra := Skip(s, codes.dists[k]);
            Run(codes, wsize, Dist(length), hist, s) ==
            Run(codes, wsize, Match(length, DistanceValue(k, Low(extra.value, DistanceBits(k)))), hist,
                Skip(extra, DistanceBits(k)))
  {
    hide Run, NextCode, Comes, Lengths, Low, Pow2, Meaning, DistanceBits, DistanceValue;
    NextIs(DISTS, codes.dists, k, s);
    DistanceEntry(k);
    OneStep(codes, wsize, Dist(length), hist, s);
    var extra := Skip(s, codes.dists[k]);
    OneStep(codes, wsize, DistExt(length, DistanceValue(k, 0), DistanceBits(k)), hist, extra);
    DistanceExtra(k, extra.value);
  }

  /** The length symbols 286 and 287, and the distance symbols 30 and 31, mean nothing. */
  lemma NoMeaning(codes: Codes, wsize: nat, length: nat, hist: seq<Byte>, s: Stream, sym: nat)
    requires WellFormed(codes)
    ensures Comes(codes.lens, sym, s) && sym >= 286 ==>
              Run(codes, wsize, Len, hist, s) == Result(hist, Invalid, {})
    ensures Comes(codes.dists, sym, s) && sym >= 30 ==>
              Run(codes, wsize, Dist(length), hist, s) == Result(hist, Invalid, {})
  {
    hide Run, NextCode, Lengths, NotOversubscribed;
    if Comes(codes.lens, sym, s) && sym >= 286 {
      NextIs(LENS, codes.lens, sym, s);
      assert LENGTH_OP[29] == 78 && LENGTH_OP[30] == 68;
      OneStep(codes, wsize, Len, hist, s);
    }
    if Comes(codes.dists, sym, s) && sym >= 30 {
      NextIs(DISTS, codes.dists, sym, s);
      assert DIST_OP[30] == DIST_OP[31] == 64;
      OneStep(codes, wsize, Dist(length), hist, s);
    }
  }
}
