/** The decoding states of inflate, from LEN to LIT: input and output in any pieces, the sliding window
    standing in for output that is no longer in the buffer. */
module Inflate {
  import opened Permutations
  import opened Bits
  import opened BitFields
  import opened CanonicalCodes
  import opened ReversedBits
  import opened DecodeTables
  import opened InflateSpec
  import opened BitAccumulator
  import opened SlidingWindow

  datatype Mode = LEN | LENEXT | DIST | DISTEXT | MATCH | LIT | TYPE | BAD

  // ---- looking codes up with too few bits ----

  /** A lookup depends on the bits it uses only. */
  lemma SameFetch(tab: seq<Code>, root: nat, kind: Kind, lens: seq<int>, hold: nat, hold': nat)
    requires CodeTable(tab, root, kind, lens) && Pow2(root) <= |tab|
    requires Slot(tab, root, hold) < |tab| && Slot(tab, root, hold') < |tab|
    requires Low(hold, 1) == Low(hold', 1)
    requires Low(hold, Fetch(tab, root, hold').used) == Low(hold', Fetch(tab, root, hold').used)
    ensures Fetch(tab, root, hold) == Fetch(tab, root, hold')
  {
    hide Pow2, Low, Slot, After, Meaning, Taken, CodeOf, Reverse, Fetch;
    if HasCode(lens, hold') {
      var s :| Starts(lens, s, hold');
      assert Decodes(tab, root, kind, lens, s, hold');
      assert Starts(lens, s, hold);
      assert Decodes(tab, root, kind, lens, s, hold);
    } else {
      assert Refuses(tab, root, hold');
      assert !HasCode(lens, hold);
      assert Refuses(tab, root, hold);
    }
  }

  /** A lookup that needs more bits than are held still needs more once further bits arrive. */
  lemma StillMore(tab: seq<Code>, root: nat, kind: Kind, lens: seq<int>, hold: nat, bits: nat, hold': nat)
    requires CodeTable(tab, root, kind, lens) && Pow2(root) <= |tab|
    requires Slot(tab, root, hold) < |tab| && Slot(tab, root, hold') < |tab| && Fetch(tab, root, hold').used > 0
    requires Fetch(tab, root, hold).used > bits && forall k: nat | k <= bits :: Low(hold, k) == Low(hold', k)
    ensures Fetch(tab, root, hold').used > bits
  {
    hide Pow2, Low, Slot, Taken, Fetch, IsDecoder, RefusedEarly;
    if Fetch(tab, root, hold').used <= bits { SameFetch(tab, root, kind, lens, hold, hold'); }
  }

  lemma SameLow(hold: nat, bits: nat, bytes: seq<Byte>, hold': nat, bits': nat, bytes': seq<Byte>, k: nat)
    requires Ahead(hold, bits, bytes) == Ahead(hold', bits', bytes') && k <= bits && k <= bits'
    ensures Low(hold, k) == Low(hold', k)
  {
    hide Ahead;
    LowHeld(hold, bits, bytes, k);
    LowHeld(hold', bits', bytes', k);
  }

  lemma LinkedIndex(tab: seq<Code>, root: nat, hold: nat)
    requires Pow2(root) <= |tab| && Slot(tab, root, hold) < |tab| && IsLink(tab[Low(hold, root)])
    ensures Slot(tab, root, hold) == tab[Low(hold, root)].val
            + After(hold, tab[Low(hold, root)].bits, tab[Low(hold, root)].op)
    ensures Fetch(tab, root, hold).used == tab[Low(hold, root)].bits + tab[Slot(tab, root, hold)].bits
    ensures Fetch(tab, root, hold).op == tab[Slot(tab, root, hold)].op
            && Fetch(tab, root, hold).val == tab[Slot(tab, root, hold)].val
  {
  }

  lemma DirectIndex(tab: seq<Code>, root: nat, hold: nat)
    requires Pow2(root) <= |tab| && !IsLink(tab[Low(hold, root)])
    ensures Slot(tab, root, hold) == Low(hold, root)
    ensures Fetch(tab, root, hold) ==
            Token(tab[Low(hold, root)].op, tab[Low(hold, root)].val, tab[Low(hold, root)].bits)
  {
  }

  /** The bits that a lookup with the held bits asks for. */
  ghost function Needed(tab: seq<Code>, root: nat, hold: nat): nat {
    if Pow2(root) <= |tab| && Slot(tab, root, hold) < |tab| then Fetch(tab, root, hold).used else 0
  }

  lemma NeededIs(tab: seq<Code>, root: nat, kind: Kind, lens: seq<int>, hold: nat)
    requires CodeTable(tab, root, kind, lens)
    ensures 1 <= root <= MAXBITS && Pow2(root) <= |tab| && Slot(tab, root, hold) < |tab|
    ensures 0 < Needed(tab, root, hold) == Fetch(tab, root, hold).used <= MAXBITS
    ensures var e := tab[Low(hold, root)];
            && ((kind.DISTS? || e.op != 0) && e.op / 16 % 16 == 0 <==> IsLink(e))
            && e.bits <= Needed(tab, root, hold) && (IsLink(e) ==> e.bits == root)
  {
    hide Pow2, Low, Slot, After, IsDecoder, Meaning, Taken, RefusedEarly;
    FetchSafe(tab, root, kind, lens, hold);
    var e := tab[Low(hold, root)];
    if IsLink(e) { LinkedIndex(tab, root, hold); } else { DirectIndex(tab, root, hold); }
  }

  lemma NowDecoded(tab: seq<Code>, root: nat, kind: Kind, lens: seq<int>, hold: nat, bits: nat, bytes: seq<Byte>,
                   t: Token)
    requires CodeTable(tab, root, kind, lens) && |lens| <= MaxSymbols(kind)
    requires Pow2(root) <= |tab| && Slot(tab, root, hold) < |tab| && t == Fetch(tab, root, hold) && t.used <= bits
    ensures IsNext(kind, lens, Ahead(hold, bits, bytes), t)
            && Needed(tab, root, hold) == t.used <= Ahead(hold, bits, bytes).count
  {
    hide Ahead, Low, Slot, Fetch, IsDecoder, RefusedEarly, Pow2, CodeTable, Known, NextCode;
    FetchSafe(tab, root, kind, lens, hold);
    FetchIs(tab, root, kind, lens, hold, bits, bytes);
    AheadCount(hold, bits, bytes);
  }

  /** With no further input, too few bits for a code are no code. */
  lemma CodeUnfinished(tab: seq<Code>, root: nat, kind: Kind, lens: seq<int>, hold: nat, bits: nat)
    requires CodeTable(tab, root, kind, lens) && |lens| <= MaxSymbols(kind) && Needed(tab, root, hold) > bits
    ensures NextCode(kind, lens, Ahead(hold, bits, [])) == Unfinished
  {
    hide Low, Slot, Fetch, RefusedEarly, Pow2, Meaning, CodeOf, Reverse, Taken;
    NeededIs(tab, root, kind, lens, hold);
    assert Ahead(hold, bits, []) == Stream(hold, bits);
    if HasCode(lens, hold) {
      forall s | Starts(lens, s, hold) ensures lens[s] > bits { assert Decodes(tab, root, kind, lens, s, hold); }
    } else {
      assert Refuses(tab, root, hold);
    }
  }

  lemma MoreBits(tab: seq<Code>, root: nat, kind: Kind, lens: seq<int>,
                 hold: nat, bits: nat, bytes: seq<Byte>, hold': nat, bits': nat, bytes': seq<Byte>)
    requires CodeTable(tab, root, kind, lens) && bits <= bits'
    requires Ahead(hold, bits, bytes) == Ahead(hold', bits', bytes') && Needed(tab, root, hold) > bits
    ensures Needed(tab, root, hold') > bits
  {
    hide Ahead, Low, Slot, Fetch, IsDecoder, RefusedEarly, Pow2, CodeTable;
    NeededIs(tab, root, kind, lens, hold);
    NeededIs(tab, root, kind, lens, hold');
    forall k: nat | k <= bits
      ensures Low(hold, k) == Low(hold', k) { SameLow(hold, bits, bytes, hold', bits', bytes', k); }
    StillMore(tab, root, kind, lens, hold, bits, hold');
  }

  lemma SpareBits(hold: nat, bits: nat, bytes: seq<Byte>, root: nat, hold': nat, bits': nat, bytes': seq<Byte>)
    requires Ahead(hold, bits, bytes) == Ahead(hold', bits', bytes') && root <= bits && root <= bits'
    ensures Low(hold, root) == Low(hold', root)
  {
    SameLow(hold, bits, bytes, hold', bits', bytes', root);
  }

  /** What a looked up code stands for. */
  ghost predicate IsNext(kind: Kind, lens: seq<int>, s: Stream, t: Token)
    requires |lens| <= MaxSymbols(kind)
  {
    && Known(kind, t) && 0 < t.used <= s.count
    && (NextCode(kind, lens, s) == Coded(t) || (NextCode(kind, lens, s) == NoCode && t == Token(64, 0, 1)))
  }

  // ---- the phases ----

  function PhaseOf(mode: Mode, length: nat, offset: nat, extra: nat): Phase {
    match mode
    case LEN => Len
    case LENEXT => LenExt(length, extra)
    case DIST => Dist(length)
    case DISTEXT => DistExt(length, offset, extra)
    case MATCH => Match(length, offset)
    case LIT => if length < 256 then Lit(length) else Failed
    case TYPE => Ended
    case BAD => Failed
  }

  /** After a length code. */
  function AfterLen(t: Token): Phase {
    if t.op == 0 then (if t.val < 256 then Lit(t.val) else Failed)
    else if t.op == 96 then Ended
    else if t.op >= 64 then Failed
    else LenExt(t.val, t.op % 16)
  }

  function AfterDist(length: nat, t: Token): Phase {
    if t.op >= 64 then Failed else DistExt(length, t.val, t.op % 16)
  }

  lemma LenStep(codes: Codes, wsize: nat, hist: seq<Byte>, s: Stream, t: Token)
    requires WellFormed(codes) && IsNext(LENS, codes.lens, s, t)
    ensures Run(codes, wsize, Len, hist, s) == Run(codes, wsize, AfterLen(t), hist, Skip(s, t.used))
  {
    hide Run, NextCode;
    OneStep(codes, wsize, Len, hist, s);
    OneStep(codes, wsize, AfterLen(t), hist, Skip(s, t.used));
  }

  lemma LenExtStep(codes: Codes, wsize: nat, length: nat, extra: nat, hist: seq<Byte>, s: Stream)
    requires WellFormed(codes) && extra <= s.count
    ensures Run(codes, wsize, LenExt(length, extra), hist, s) ==
            Run(codes, wsize, Dist(length + Low(s.value, extra)), hist, Skip(s, extra))
  {
    hide Run, NextCode;
    OneStep(codes, wsize, LenExt(length, extra), hist, s);
  }

  lemma DistStep(codes: Codes, wsize: nat, length: nat, hist: seq<Byte>, s: Stream, t: Token)
    requires WellFormed(codes) && IsNext(DISTS, codes.dists, s, t)
    ensures Run(codes, wsize, Dist(length), hist, s) == Run(codes, wsize, AfterDist(length, t), hist, Skip(s, t.used))
  {
    hide Run, NextCode;
    OneStep(codes, wsize, Dist(length), hist, s);
    OneStep(codes, wsize, AfterDist(length, t), hist, Skip(s, t.used));
  }

  lemma DistExtStep(codes: Codes, wsize: nat, length: nat, offset: nat, extra: nat, hist: seq<Byte>, s: Stream)
    requires WellFormed(codes) && extra <= s.count
    ensures Run(codes, wsize, DistExt(length, offset, extra), hist, s) ==
            Run(codes, wsize, Match(length, offset + Low(s.value, extra)), hist, Skip(s, extra))
  {
    hide Run, NextCode;
    OneStep(codes, wsize, DistExt(length, offset, extra), hist, s);
  }

  lemma LitStep(codes: Codes, wsize: nat, byte: Byte, hist: seq<Byte>, s: Stream)
    requires WellFormed(codes)
    ensures Run(codes, wsize, Lit(byte), hist, s) == Run(codes, wsize, Len, hist + [byte], s)
  {
    hide Run, NextCode;
    OneStep(codes, wsize, Lit(byte), hist, s);
  }

  lemma MatchDone(codes: Codes, wsize: nat, offset: nat, hist: seq<Byte>, s: Stream)
    requires WellFormed(codes)
    ensures Run(codes, wsize, Match(0, offset), hist, s) == Run(codes, wsize, Len, hist, s)
  {
    hide Run, NextCode;
    OneStep(codes, wsize, Match(0, offset), hist, s);
  }

  /** A match that reaches beyond what is there fails, and one that reaches beyond the window may. */
  lemma MatchRefused(codes: Codes, wsize: nat, length: nat, offset: nat, hist: seq<Byte>, s: Stream)
    requires WellFormed(codes) && length > 0 && (offset > |hist| || offset > wsize)
    ensures Agree(Run(codes, wsize, Match(length, offset), hist, s), Run(codes, wsize, Failed, hist, s))
  {
    hide Run, NextCode;
    OneStep(codes, wsize, Match(length, offset), hist, s);
    OneStep(codes, wsize, Failed, hist, s);
    RunExtends(codes, wsize, Match(length, offset), hist, s);
  }

  // ---- the state ----

  /** The history h has grown by the n bytes of a buffer from at on. */
  ghost predicate Delivered(h: seq<Byte>, h': seq<Byte>, buffer: seq<Byte>, at: nat, n: nat) {
    at + n <= |buffer| && h' == h + buffer[at..at + n]
  }

  class InflateState {
    const lencode: seq<Code>
    const lenbits: nat
    const distcode: seq<Code>
    const distbits: nat
    const window: array<Byte>
    ghost const codes: Codes

    // the stream: next_in, next_out, avail_out, and what avail_out was when inflate was called
    var input: seq<Byte>
    var next: nat
    var output: array<Byte>
    var put: nat
    var left: nat
    var out: nat

    var mode: Mode
    var hold: nat
    var bits: nat
    var length: nat
    var offset: nat
    var extra: nat
    var wsize: nat
    var whave: nat
    var wnext: nat

    /** All the output of the stream so far. */
    ghost var hist: seq<Byte>

    /** The output of earlier calls, and where the output of this call begins. */
    ghost var before: seq<Byte>
    ghost var origin: nat

    /** A new stream, at the beginning of the codes of its first block. */
    constructor (lencode: seq<Code>, lenbits: nat, distcode: seq<Code>, distbits: nat, window: array<Byte>,
                 ghost codes: Codes)
      requires WellFormed(codes) && window.Length > 0
      requires CodeTable(lencode, lenbits, LENS, codes.lens) && CodeTable(distcode, distbits, DISTS, codes.dists)
      ensures Idle() && mode == LEN && this.hist == [] && this.window == window && this.codes == codes
              && hold == bits == 0
    {
      this.lencode, this.lenbits, this.distcode, this.distbits := lencode, lenbits, distcode, distbits;
      this.window, this.codes, this.output := window, codes, window;
      input, next, put, left, out, mode, hold, bits, length, offset, extra := [], 0, 0, 0, 0, LEN, 0, 0, 0, 0, 0;
      wsize, whave, wnext, hist, before, origin := 0, 0, 0, [], [], 0;
      new;
      HoldsNothing(window[..]);
    }

    ghost predicate Tables() {
      && WellFormed(codes) && window.Length > 0
      && CodeTable(lencode, lenbits, LENS, codes.lens)
      && CodeTable(distcode, distbits, DISTS, codes.dists)
    }

    ghost predicate Reading()
      reads `hold, `bits, `input, `next
    {
      next <= |input| && hold < Pow2(bits) && bits <= 30
    }

    /** The output of this call is the end of the history. */
    ghost predicate Writing()
      reads `output, `put, `left, `out, `hist, `origin, output
    {
      && output != window && put + left <= output.Length && left <= out && put == origin + (out - left)
          && out - left <= |hist|
      && output[put - (out - left)..put] == hist[|hist| - (out - left)..]
    }

    /** The window holds the end of the output of earlier calls. */
    ghost predicate Windowed()
      reads `wsize, `whave, `wnext, `left, `out, `hist, `before, window
    {
      && left <= out && out - left <= |hist|
      && hist[..|hist| - (out - left)] == before && Holds(window[..], wnext, whave, before)
      && (wsize == window.Length || (wsize == 0 && |hist| == out - left))
    }

    /** The bytes from the accumulator on, when later follows the input at hand. */
    ghost function Stream(later: seq<Byte>): Stream
      reads `hold, `bits, `input, `next
    {
      Ahead(hold, bits, (if next <= |input| then input[next..] else []) + later)
    }

    /** What decoding will have brought in the end. */
    ghost function Future(later: seq<Byte>): Result
      reads `hold, `bits, `input, `next, `mode, `length, `offset, `extra, `hist
    {
      Run(codes, window.Length, PhaseOf(mode, length, offset, extra), hist, Stream(later))
    }

    // ---- input ----

    method PullByte(ghost later: seq<Byte>) returns (ok: bool)
      requires Reading() && bits <= 22
      modifies `hold, `bits, `next
      ensures Reading() && Stream(later) == old(Stream(later))
      ensures ok == (old(next) < |input|)
      ensures ok ==>
                next == old(next) + 1 && bits == old(bits) + 8 && hold == old(hold) + input[old(next)] * Pow2(old(bits))
      ensures !ok ==> next == old(next) && bits == old(bits) && hold == old(hold)
    {
      hide Pow2, LittleEndian;
      if next == |input| { return false; }
      ghost var bytes := input[next..] + later;
      PullKeeps(hold, bits, bytes);
      assert input[next + 1..] + later == bytes[1..];
      hold := hold + input[next] * Pow2(bits);
      bits := bits + 8;
      next := next + 1;
      return true;
    }

    method NeedBits(n: nat, ghost later: seq<Byte>) returns (ok: bool)
      requires Reading() && n <= 15 && bits < n + 8
      modifies `hold, `bits, `next
      ensures Reading() && Stream(later) == old(Stream(later)) && bits < n + 8
      ensures ok ==> bits >= n
      ensures !ok ==> next == |input| && bits < n
    {
      while bits < n
        invariant Reading() && Stream(later) == old(Stream(later)) && bits < n + 8
        decreases |input| - next
      {
        ok := PullByte(later);
        if !ok { return; }
      }
      return true;
    }

    method DropBits(n: nat, ghost later: seq<Byte>)
      requires Reading() && n <= bits
      modifies `hold, `bits
      ensures Reading() && n <= old(Stream(later)).count && Stream(later) == Skip(old(Stream(later)), n)
      ensures bits == old(bits) - n && hold == High(old(hold), n)
    {
      hide Pow2, LittleEndian, High;
      DropSkips(hold, bits, input[next..] + later, n);
      hold := High(hold, n);
      bits := bits - n;
    }

    // ---- output ----

    method PutByte(b: Byte)
      requires Writing() && Windowed() && left > 0
      modifies output, `put, `left, `hist
      ensures Writing() && Windowed() && hist == old(hist) + [b] && put == old(put) + 1 && left == old(left) - 1
    {
      hide Holds;
      ghost var n, made := out - left, output[put - (out - left)..put];
      output[put] := b;
      assert output[put - n..put + 1] == made + [b];
      put := put + 1;
      left := left - 1;
      hist := hist + [b];
      assert hist[|hist| - (n + 1)..] == made + [b];
      assert hist[..|hist| - (n + 1)] == before;
    }

    lemma OutputByte(dist: nat)
      requires Writing() && 0 < dist <= out - left
      ensures left <= out && 0 <= put - dist && put <= output.Length && dist <= |hist|
              && output[put - dist] == hist[|hist| - dist]
    {
      var made := out - left;
      assert output[put - made..put][made - dist] == hist[|hist| - made..][made - dist];
    }

    /** Copying n bytes of a match from the output of this call. */
    method CopyFromOutput(dist: nat, n: nat)
      requires Writing() && Windowed() && 0 < dist <= out - left && n <= left
      modifies output, `put, `left, `hist
      ensures Writing() && Windowed() && hist == Repeated(old(hist), dist, n)
      ensures put == old(put) + n && left == old(left) - n
    {
      hide Holds, Windowed, Writing, Repeated;
      OutputByte(dist);
      RepeatedNone(hist, dist);
      for k := 0 to n
        invariant Writing() && Windowed() && hist == Repeated(old(hist), dist, k)
        invariant put == old(put) + k && left == old(left) - k && left <= out
      {
        OutputByte(dist);
        RepeatedNext(old(hist), dist, k);
        PutByte(output[put - dist]);
      }
    }

    /** Copying n bytes of a match from the window, where they lie side by side. */
    method CopyFromWindow(from: nat, n: nat, ghost dist: nat)
      requires Writing() && Windowed() && out - left < dist <= |hist| && n <= left
      requires dist - (out - left) <= whave && wnext < window.Length
      requires from == Place(window.Length, wnext, dist - (out - left))
      requires n <= if dist - (out - left) > wnext then dist - (out - left) - wnext else dist - (out - left)
      modifies output, `put, `left, `hist
      ensures Writing() && Windowed() && hist == Repeated(old(hist), dist, n)
      ensures put == old(put) + n && left == old(left) - n
    {
      hide Holds, Writing, Repeated;
      ghost var d := dist - (out - left);
      assert Repeated(hist, dist, 0) == hist by { RepeatedNone(hist, dist); }
      for k := 0 to n
        invariant Writing() && Windowed() && hist == Repeated(old(hist), dist, k) && dist <= |hist|
        invariant put == old(put) + k && left == old(left) - k && left <= out && out - left <= |hist|
      {
        WindowByte(window[..], wnext, whave, before, d - k);
        assert before[|before| - (d - k)] == hist[|hist| - dist];
        RepeatedNext(old(hist), dist, k);
        PutByte(window[from + k]);
      }
    }

    // ---- codes ----

    /** The lookup loops of the LEN and DIST states: just enough bytes are pulled to decode one code. */
    method FetchCode(kind: Kind, tab: seq<Code>, root: nat, ghost lens: seq<int>, ghost later: seq<Byte>)
      returns (ok: bool, op: nat, val: nat, ghost used: nat)
      requires Reading() && CodeTable(tab, root, kind, lens) && |lens| <= MaxSymbols(kind)
      requires bits < Needed(tab, root, hold) + 8
      modifies `hold, `bits, `next
      ensures Reading()
      ensures ok ==> IsNext(kind, lens, old(Stream(later)), Token(op, val, used)) && bits < 8
                     && Stream(later) == Skip(old(Stream(later)), used)
      ensures !ok ==> Stream(later) == old(Stream(later)) && next == |input| && bits < Needed(tab, root, hold)
    {
      hide Pow2, LittleEndian, High, Low, Slot, Fetch, CodeTable, Needed, IsNext, Ahead, After, IsLink;
      NeededIs(tab, root, kind, lens, hold);
      ok, op, val, used := false, 0, 0, 0;
      var here := tab[Low(hold, root)];
      while here.bits > bits
        invariant Reading() && Stream(later) == old(Stream(later)) && Pow2(root) <= |tab|
        invariant here == tab[Low(hold, root)] && bits < Needed(tab, root, hold) + 8
        decreases |input| - next
      {
        NeededIs(tab, root, kind, lens, hold);
        ghost var h0, b0, i0 := hold, bits, input[next..] + later;
        var more := PullByte(later);
        if !more { return; }
        MoreBits(tab, root, kind, lens, h0, b0, i0, hold, bits, input[next..] + later);
        here := tab[Low(hold, root)];
      }
      NeededIs(tab, root, kind, lens, hold);
      if (kind.DISTS? || here.op != 0) && here.op / 16 % 16 == 0 {
        var last := here;
        LinkedIndex(tab, root, hold);
        here := tab[last.val + After(hold, last.bits, last.op)];
        while last.bits + here.bits > bits
          invariant Reading() && Stream(later) == old(Stream(later)) && Slot(tab, root, hold) < |tab|
          invariant last == tab[Low(hold, root)] && last.bits == root <= bits && here == tab[Slot(tab, root, hold)]
          invariant IsLink(last) && bits < Needed(tab, root, hold) + 8
          decreases |input| - next
        {
          NeededIs(tab, root, kind, lens, hold);
          LinkedIndex(tab, root, hold);
          ghost var h0, b0, i0 := hold, bits, input[next..] + later;
          var more := PullByte(later);
          if !more { return; }
          MoreBits(tab, root, kind, lens, h0, b0, i0, hold, bits, input[next..] + later);
          SpareBits(h0, b0, i0, root, hold, bits, input[next..] + later);
          NeededIs(tab, root, kind, lens, hold);
          LinkedIndex(tab, root, hold);
          here := tab[last.val + After(hold, last.bits, last.op)];
        }
        LinkedIndex(tab, root, hold);
        used := last.bits + here.bits;
        NowDecoded(tab, root, kind, lens, hold, bits, input[next..] + later, Token(here.op, here.val, used));
        SkipTwice(Stream(later), last.bits, here.bits);
        DropBits(last.bits, later);
      } else {
        DirectIndex(tab, root, hold);
        used := here.bits;
        NowDecoded(tab, root, kind, lens, hold, bits, input[next..] + later, Token(here.op, here.val, used));
      }
      DropBits(here.bits, later);
      return true, here.op, here.val, used;
    }

    // ---- the states ----

    /** What holds in each state. Never more than a byte too much is held. */
    ghost predicate InMode()
      reads `mode, `hold, `bits, `length, `offset, `extra
    {
      match mode
      case LEN => bits < Needed(lencode, lenbits, hold) + 8
      case LENEXT => length > 0 && extra <= 13 && bits < extra + 8
      case DIST => length > 0 && bits < Needed(distcode, distbits, hold) + 8
      case DISTEXT => length > 0 && offset > 0 && extra <= 13 && bits < extra + 8
      case MATCH => length > 0 && offset > 0 && bits < 8
      case LIT => length < 256 && bits < 8
      case TYPE => bits < 8
      case BAD => bits < 8
    }

    ghost predicate Valid()
      reads this, output, window
    {
      Tables() && Reading() && Writing() && Windowed() && InMode()
    }

    function Phase(): Phase
      reads `mode, `length, `offset, `extra
    {
      PhaseOf(mode, length, offset, extra)
    }

    /** The bits still at hand. */
    function Bits(): nat
      reads `bits, `input, `next
    {
      bits + if next <= |input| then 8 * (|input| - next) else 0
    }

    lemma StreamCount(later: seq<Byte>)
      requires Reading()
      ensures Stream(later).count == Bits() + 8 * |later|
    {
      hide Ahead, Pow2;
      AheadCount(hold, bits, input[next..] + later);
    }

    /** There is no input left, and what is there does not complete the next code or number. */
    ghost predicate Starving()
      reads `hold, `bits, `input, `next, `mode, `length, `offset, `extra, `hist
    {
      next == |input| && Future([]) == Result(hist, Starved, {})
    }

    lemma StarvingAt()
      requires WellFormed(codes) && next == |input|
      requires Next(codes, Phase(), hist, Ahead(hold, bits, [])) == Stop(Starved)
      ensures Starving()
    {
      hide Run, Ahead, Next;
      assert input[next..] + [] == [];
      OneStep(codes, window.Length, Phase(), hist, Ahead(hold, bits, []));
    }

    lemma TablesAre()
      requires Tables()
      ensures WellFormed(codes) && window.Length > 0
      ensures |codes.lens| <= MaxSymbols(LENS) && CodeTable(lencode, lenbits, LENS, codes.lens)
      ensures |codes.dists| <= MaxSymbols(DISTS) && CodeTable(distcode, distbits, DISTS, codes.dists)
    {
      hide CodeTable;
    }

    /** The next length or literal code, if it is all there. */
    method FetchLength(ghost later: seq<Byte>) returns (ok: bool, op: nat, val: nat, ghost used: nat)
      requires Tables() && Reading() && mode == LEN && bits < Needed(lencode, lenbits, hold) + 8
      modifies `hold, `bits, `next
      ensures Reading()
      ensures ok ==> |codes.lens| <= MaxSymbols(LENS)
                     && IsNext(LENS, codes.lens, old(Stream(later)), Token(op, val, used)) && bits < 8
                     && Stream(later) == Skip(old(Stream(later)), used) && Bits() == old(Bits()) - used
      ensures !ok ==> Stream(later) == old(Stream(later)) && bits < Needed(lencode, lenbits, hold) + 8 && Starving()
    {
      hide CodeTable, IsNext, Run, Needed, Known, Ahead, Pow2, Reading, Tables, Starving;
      TablesAre();
      StreamCount(later);
      ok, op, val, used := FetchCode(LENS, lencode, lenbits, codes.lens, later);
      if !ok {
        CodeUnfinished(lencode, lenbits, LENS, codes.lens, hold, bits);
        StarvingAt();
      }
      StreamCount(later);
    }

    /** The next distance code. */
    method FetchDistance(ghost later: seq<Byte>) returns (ok: bool, op: nat, val: nat, ghost used: nat)
      requires Tables() && Reading() && mode == DIST && bits < Needed(distcode, distbits, hold) + 8
      modifies `hold, `bits, `next
      ensures Reading()
      ensures ok ==> |codes.dists| <= MaxSymbols(DISTS)
                     && IsNext(DISTS, codes.dists, old(Stream(later)), Token(op, val, used)) && bits < 8
                     && Stream(later) == Skip(old(Stream(later)), used) && Bits() == old(Bits()) - used
      ensures !ok ==> Stream(later) == old(Stream(later)) && bits < Needed(distcode, distbits, hold) + 8 && Starving()
    {
      hide CodeTable, IsNext, Run, Needed, Known, Ahead, Pow2, Reading, Tables, Starving;
      TablesAre();
      StreamCount(later);
      ok, op, val, used := FetchCode(DISTS, distcode, distbits, codes.dists, later);
      if !ok {
        CodeUnfinished(distcode, distbits, DISTS, codes.dists, hold, bits);
        StarvingAt();
      }
      StreamCount(later);
    }

    /** LEN, when there is not enough input or output space for inflate_fast. */
    method StateLen(ghost later: seq<Byte>) returns (go: bool)
      requires Valid() && mode == LEN
      modifies `hold, `bits, `next, `mode, `length, `extra
      ensures Valid() && Future(later) == old(Future(later))
      ensures go ==> Bits() < old(Bits())
      ensures !go ==> mode == LEN && Starving()
    {
      hide Writing, Windowed, CodeTable, IsNext, Run, Needed, Known, Ahead, Pow2, Reading, Tables, Starving;
      ValidParts();
      TablesAre();
      ghost var s0 := Stream(later);
      var ok, op, val, used := FetchLength(later);
      if !ok { return false; }
      go := true;
      ghost var t := Token(op, val, used);
      LenStep(codes, window.Length, hist, s0, t);
      LenToken(s0, codes.lens, t);
      LeaveLen(op, val);
    }

    /** What a length or literal code calls for. */
    method LeaveLen(op: nat, val: nat)
      requires op == 0 || op == 96 || op == 64 || op == 68 || op == 78 || 16 <= op <= 21
      modifies `mode, `length, `extra
      ensures length == val && mode == (if op == 0 then LIT else if op == 96 then TYPE
                                        else if op >= 64 then BAD else LENEXT)
      ensures extra == if op in {0, 96, 64, 68, 78} then old(extra) else op % 16
    {
      length := val;
      if op == 0 {
        mode := LIT;
      } else if op / 32 % 2 == 1 {
        mode := TYPE;
      } else if op / 64 % 2 == 1 {
        mode := BAD;
      } else {
        extra := op % 16;
        mode := LENEXT;
      }
    }

    /** The extra bits of a length or a distance, if there are any. */
    method TakeExtra(ghost later: seq<Byte>) returns (ok: bool, v: nat)
      requires Reading() && extra <= 13 && bits < extra + 8
      modifies `hold, `bits, `next
      ensures Reading() && (ok ==> extra <= old(Stream(later)).count && bits < 8 && Bits() <= old(Bits()))
      ensures ok ==> v == Low(old(Stream(later)).value, extra) && Stream(later) == Skip(old(Stream(later)), extra)
      ensures !ok ==> Stream(later) == old(Stream(later)) && next == |input| && bits < extra
    {
      hide Ahead, Pow2, Low, High;
      ghost var s0 := Stream(later);
      StreamCount(later);
      ok, v := true, 0;
      if extra != 0 {
        ok := NeedBits(extra, later);
        if !ok { return; }
        LowHeld(hold, bits, input[next..] + later, extra);
        v := Low(hold, extra);
        DropBits(extra, later);
      } else {
        NoBits(s0);
      }
      StreamCount(later);
    }

    /** LENEXT. */
    method StateLenExt(ghost later: seq<Byte>) returns (go: bool)
      requires Valid() && mode == LENEXT
      modifies `hold, `bits, `next, `mode, `length
      ensures Valid() && Future(later) == old(Future(later))
      ensures go ==> mode == DIST && Bits() <= old(Bits())
      ensures !go ==> mode == LENEXT && Starving()
    {
      hide Writing, Windowed, CodeTable, Run, Needed, Ahead, Pow2, Low, High, Tables, Starving;
      TablesAre();
      ghost var s0 := Stream(later);
      var ok, v := TakeExtra(later);
      if !ok {
        AheadCount(hold, bits, []);
        StarvingAt();
        return false;
      }
      LenExtStep(codes, window.Length, length, extra, hist, s0);
      length := length + v;
      mode := DIST;
      return true;
    }

    /** DIST. */
    method StateDist(ghost later: seq<Byte>) returns (go: bool)
      requires Valid() && mode == DIST
      modifies `hold, `bits, `next, `mode, `offset, `extra
      ensures Valid() && Future(later) == old(Future(later))
      ensures go ==> Bits() < old(Bits())
      ensures !go ==> mode == DIST && Starving()
    {
      hide Writing, Windowed, CodeTable, IsNext, Run, Needed, Known, Ahead, Pow2, Reading, Tables, Starving;
      ValidParts();
      TablesAre();
      ghost var s0 := Stream(later);
      var ok, op, val, used := FetchDistance(later);
      if !ok { return false; }
      go := true;
      ghost var t := Token(op, val, used);
      DistStep(codes, window.Length, length, hist, s0, t);
      DistToken(s0, codes.dists, t);
      LeaveDist(op, val);
    }

    /** What a distance code calls for. */
    method LeaveDist(op: nat, val: nat)
      requires op == 64 || 16 <= op <= 29
      modifies `mode, `offset, `extra
      ensures if op == 64 then mode == BAD && offset == old(offset) && extra == old(extra)
              else mode == DISTEXT && offset == val && extra == op % 16
    {
      if op / 64 % 2 == 1 {
        mode := BAD;
      } else {
        offset := val;
        extra := op % 16;
        mode := DISTEXT;
      }
    }

    /** DISTEXT. */
    method StateDistExt(ghost later: seq<Byte>) returns (go: bool)
      requires Valid() && mode == DISTEXT
      modifies `hold, `bits, `next, `mode, `offset
      ensures Valid() && Future(later) == old(Future(later))
      ensures go ==> mode == MATCH && Bits() <= old(Bits())
      ensures !go ==> mode == DISTEXT && Starving()
    {
      hide Writing, Windowed, CodeTable, Run, Needed, Ahead, Pow2, Low, High, Tables, Starving;
      TablesAre();
      ghost var s0 := Stream(later);
      var ok, v := TakeExtra(later);
      if !ok {
        AheadCount(hold, bits, []);
        StarvingAt();
        return false;
      }
      DistExtStep(codes, window.Length, length, offset, extra, hist, s0);
      offset := offset + v;
      mode := MATCH;
      return true;
    }

    /** LIT. */
    method StateLit(ghost later: seq<Byte>) returns (go: bool)
      requires Valid() && mode == LIT
      modifies output, `put, `left, `hist, `mode
      ensures Valid() && Future(later) == old(Future(later))
      ensures go ==> mode == LEN && old(length) < 256
      ensures !go ==> mode == LIT && left == 0
    {
      hide Writing, Windowed, CodeTable, Run, Needed, Ahead, Pow2;
      if left == 0 { return false; }
      LitStep(codes, window.Length, length, hist, Stream(later));
      PutByte(length);
      mode := LEN;
      return true;
    }

    /** As much of a match as can be copied at once: from the window, if the distance goes beyond the
        output of this call, and otherwise from the output. */
    method CopyMatch() returns (refused: bool, copy: nat)
      requires Writing() && Windowed() && window.Length > 0 && length > 0 && offset > 0 && left > 0
      modifies output, `put, `left, `hist
      ensures Writing() && Windowed()
      ensures refused ==> hist == old(hist) && (offset > |hist| || offset > window.Length)
      ensures !refused ==> 0 < copy <= length && offset <= |old(hist)| && hist == Repeated(old(hist), offset, copy)
      ensures !refused ==> put == old(put) + copy && left == old(left) - copy
    {
      hide Repeated, Holds;
      HoldsBounds(window[..], wnext, whave, before);
      refused := false;
      copy := out - left;
      if offset > copy {
        copy := offset - copy;
        if copy > whave { return true, 0; }
        var from: nat;
        WindowByte(window[..], wnext, whave, before, copy);
        if copy > wnext {
          copy := copy - wnext;
          from := wsize - copy;
        } else {
          from := wnext - copy;
        }
        if copy > length { copy := length; }
        if copy > left { copy := left; }
        CopyFromWindow(from, copy, offset);
      } else {
        copy := length;
        if copy > left { copy := left; }
        CopyFromOutput(offset, copy);
      }
    }

    /** MATCH. */
    method StateMatch(ghost later: seq<Byte>) returns (go: bool)
      requires Valid() && mode == MATCH
      modifies output, `put, `left, `hist, `mode, `length
      ensures Valid() && Agree(old(Future(later)), Future(later))
      ensures go ==> mode == LEN || mode == BAD || (mode == MATCH && length < old(length))
      ensures !go ==> mode == MATCH && left == 0
    {
      hide Writing, Windowed, CodeTable, Run, Needed, Ahead, Pow2, Repeated, Holds, Agree;
      if left == 0 { Reflexive(Future(later)); return false; }
      go := true;
      ghost var s0, hist0 := Stream(later), hist;
      var refused, copy := CopyMatch();
      if refused {
        MatchRefused(codes, window.Length, length, offset, hist, s0);
        mode := BAD;
        return;
      }
      RunMatch(codes, window.Length, length, offset, hist0, s0, copy);
      length := length - copy;
      if length == 0 {
        MatchDone(codes, window.Length, offset, hist, s0);
        mode := LEN;
      }
    }

    // ---- inflate_fast ----

    /** Whole bytes that are held and were pulled since entry can be given back. */
    ghost predicate Giving(entry: nat)
      reads `hold, `bits, `input, `next
    {
      entry <= next <= |input| && Backed(hold, bits, input[..next], Whole(next - entry, bits))
    }

    method FastByte(ghost entry: nat, ghost later: seq<Byte>)
      requires Reading() && Giving(entry) && bits <= 22 && next < |input|
      modifies `hold, `bits, `next
      ensures Reading() && Giving(entry) && Stream(later) == old(Stream(later))
      ensures next == old(next) + 1 && bits == old(bits) + 8
    {
      hide Pow2, Ahead, Backed;
      BackedPull(hold, bits, input[..next], Whole(next - entry, bits), input[next]);
      assert input[..next + 1] == input[..next] + [input[next]];
      var ok := PullByte(later);
    }

    method FastDrop(n: nat, ghost entry: nat, ghost later: seq<Byte>)
      requires Reading() && Giving(entry) && n <= bits
      modifies `hold, `bits
      ensures Reading() && Giving(entry) && n <= old(Stream(later)).count
              && Stream(later) == Skip(old(Stream(later)), n)
      ensures bits == old(bits) - n && hold == High(old(hold), n)
    {
      hide Pow2, Ahead, Backed, High;
      BackedLess(hold, bits, input[..next], Whole(next - entry, bits), Whole(next - entry, bits - n));
      BackedDrop(hold, bits, input[..next], Whole(next - entry, bits - n), n);
      DropBits(n, later);
    }

    /** At least 15 bits, enough for any code. */
    method FastFill(ghost entry: nat, ghost later: seq<Byte>)
      requires Reading() && Giving(entry) && Bits() >= 28
      modifies `hold, `bits, `next
      ensures Reading() && Giving(entry) && Stream(later) == old(Stream(later))
      ensures bits >= 15 && bits >= old(bits) && Bits() == old(Bits())
    {
      hide Stream, Giving, Pow2;
      if bits < 15 {
        FastByte(entry, later);
        FastByte(entry, later);
      }
    }

    /** Extra bits, with further bytes if they are needed. */
    method FastExtra(n: nat, ghost entry: nat, ghost later: seq<Byte>) returns (v: nat)
      requires Reading() && Giving(entry) && n <= 13 && Bits() >= 13
      modifies `hold, `bits, `next
      ensures Reading() && Giving(entry) && n <= old(Stream(later)).count
              && Stream(later) == Skip(old(Stream(later)), n)
      ensures v == Low(old(Stream(later)).value, n) && Bits() == old(Bits()) - n
    {
      hide Giving, Pow2, Ahead, Low, High;
      if bits < n {
        FastByte(entry, later);
        if bits < n { FastByte(entry, later); }
      }
      LowHeld(hold, bits, input[next..] + later, n);
      v := Low(hold, n);
      FastDrop(n, entry, later);
    }

    /** dolen and dodist: one lookup, and a second one after a link. */
    method FastCode(kind: Kind, tab: seq<Code>, root: nat, ghost lens: seq<int>, ghost entry: nat,
                    ghost later: seq<Byte>)
      returns (op: nat, val: nat, ghost used: nat)
      requires Reading() && Giving(entry) && CodeTable(tab, root, kind, lens) && |lens| <= MaxSymbols(kind)
      requires bits >= 15 && !kind.CODES?
      modifies `hold, `bits
      ensures Reading() && Giving(entry) && IsNext(kind, lens, old(Stream(later)), Token(op, val, used))
      ensures Stream(later) == Skip(old(Stream(later)), used)
      ensures used == Needed(tab, root, old(hold)) <= 15 && bits == old(bits) - used
    {
      hide Pow2, Slot, Fetch, CodeTable, Needed, IsNext, Ahead, After, IsLink, Giving, Low, High;
      NeededIs(tab, root, kind, lens, hold);
      ghost var s0 := Stream(later);
      var here := tab[Low(hold, root)];
      FastToken(tab, root, kind, lens, hold, bits, input[next..] + later);
      if here.op != 0 && here.op / 16 % 2 == 0 && here.op / 64 % 2 == 0 {
        LinkedIndex(tab, root, hold);
        ghost var hold0, link := hold, here;
        FastDrop(here.bits, entry, later);
        LowAfter(hold0, link.bits, link.op);
        here := tab[here.val + Low(hold, here.op)];
        used := link.bits + here.bits;
        SkipTwice(s0, link.bits, here.bits);
      } else {
        DirectIndex(tab, root, hold);
        used := here.bits;
      }
      op, val := here.op, here.val;
      FastDrop(here.bits, entry, later);
    }

    /** The copy loops of inflate_fast when the ring wraps around: its end, its start, then the output. */
    method FastWrapped(len: nat, dist: nat)
      requires Writing() && Windowed() && 0 < len <= left && out - left < dist <= |hist| && 0 < wnext < window.Length
      requires wnext < dist - (out - left) <= whave == wsize == window.Length
      modifies output, `put, `left, `hist
      ensures Writing() && Windowed() && hist == Repeated(old(hist), dist, len) && left == old(left) - len
    {
      hide Repeated, Holds, Writing, Windowed;
      ghost var hist0 := hist;
      LeftWithin();
      var op := dist - (out - left) - wnext;
      if op < len {
        CopyFromWindow(wsize - op, op, dist);
        RepeatedTwice(hist0, dist, op, len - op);
        FastFromStart(len - op, dist);
      } else {
        CopyFromWindow(wsize - op, len, dist);
      }
    }

    /** The part from the start of the ring on. */
    method FastFromStart(len: nat, dist: nat)
      requires Writing() && Windowed() && 0 < len <= left && out - left < dist <= |hist| && 0 < wnext < window.Length
      requires wnext == dist - (out - left) <= whave
      modifies output, `put, `left, `hist
      ensures Writing() && Windowed() && hist == Repeated(old(hist), dist, len) && left == old(left) - len
    {
      hide Repeated, Holds, Writing, Windowed;
      ghost var hist0 := hist;
      LeftWithin();
      if wnext < len {
        RepeatedTwice(hist0, dist, wnext, len - wnext);
        CopyFromWindow(0, wnext, dist);
        CopyFromOutput(dist, len - wnext);
      } else {
        CopyFromWindow(0, len, dist);
      }
    }

    lemma LeftWithin()
      requires Writing()
      ensures left <= out
    {
    }

    /** The copy loops of inflate_fast: from the window in up to two pieces, the rest from the output. */
    method FastCopy(len: nat, dist: nat) returns (refused: bool)
      requires Writing() && Windowed() && window.Length > 0 && 0 < len <= left && dist > 0
      modifies output, `put, `left, `hist
      ensures Writing() && Windowed()
      ensures refused ==> hist == old(hist) && (dist > |hist| || dist > window.Length) && left == old(left)
      ensures !refused ==> dist <= |old(hist)| && hist == Repeated(old(hist), dist, len) && left == old(left) - len
    {
      hide Repeated, Holds;
      ghost var hist0 := hist;
      HoldsBounds(window[..], wnext, whave, before);
      var op := out - left;
      if dist <= op {
        CopyFromOutput(dist, len);
        return false;
      }
      op := dist - op;
      if op > whave { return true; }
      if wnext != 0 && wnext < op {
        FastWrapped(len, dist);
      } else {
        WindowByte(window[..], wnext, whave, before, op);
        var from := if wnext == 0 then wsize - op else wnext - op;
        if op < len {
          CopyFromWindow(from, op, dist);
          RepeatedTwice(hist0, dist, op, len - op);
          CopyFromOutput(dist, len - op);
        } else {
          CopyFromWindow(from, len, dist);
        }
      }
      return false;
    }

    /** All of a match, or none of it. */
    method FastRepeat(len: nat, dist: nat, ghost s: Stream)
      requires mode == LEN && 0 < len <= left && dist > 0 && Writing() && Windowed() && Tables()
      modifies `mode, output, `put, `left, `hist
      ensures Writing() && Windowed() && (mode == LEN || mode == BAD)
      ensures Agree(Run(codes, window.Length, Match(len, dist), old(hist), s),
                    Run(codes, window.Length, Phase(), hist, s))
    {
      hide Writing, Windowed, Run, Repeated, Agree, Tables;
      TablesAre();
      ghost var hist0, w := hist, window.Length;
      var refused := FastCopy(len, dist);
      if refused {
        MatchRefused(codes, w, len, dist, hist0, s);
        mode := BAD;
      } else {
        RunMatch(codes, w, len, dist, hist0, s, len);
        MatchDone(codes, w, dist, hist, s);
      }
    }

    /** From the distance code on. */
    method FastMatch(len: nat, ghost entry: nat, ghost later: seq<Byte>)
      requires Tables() && Reading() && Writing() && Windowed() && Giving(entry) && mode == LEN
      requires 0 < len <= left && Bits() >= 28
      modifies `hold, `bits, `next, `mode, output, `put, `left, `hist
      ensures Reading() && Writing() && Windowed() && Giving(entry) && (mode == LEN || mode == BAD)
      ensures Bits() <= old(Bits())
      ensures Agree(old(Run(codes, window.Length, Dist(len), hist, Stream(later))), Future(later))
    {
      hide Writing, Windowed, CodeTable, IsNext, Run, Needed, Known, Ahead, Pow2, Giving, Repeated, Low, High, Agree,
           Reading, Tables, Stream;
      TablesAre();
      ghost var hist0, s0, w := hist, Stream(later), window.Length;
      FastFill(entry, later);
      var op, val, used := FastCode(DISTS, distcode, distbits, codes.dists, entry, later);
      ghost var t := Token(op, val, used);
      DistStep(codes, w, len, hist0, s0, t);
      DistToken(s0, codes.dists, t);
      if op / 16 % 2 == 1 {
        ghost var s1 := Stream(later);
        var v := FastExtra(op % 16, entry, later);
        var dist := val + v;
        DistExtStep(codes, w, len, val, op % 16, hist0, s1);
        FastRepeat(len, dist, Stream(later));
      } else {
        Reflexive(Run(codes, w, Failed, hist0, Stream(later)));
        mode := BAD;
      }
    }

    /** The length or literal code of one turn. */
    method FastLength(ghost entry: nat, ghost later: seq<Byte>) returns (op: nat, val: nat, ghost used: nat)
      requires Tables() && Reading() && Giving(entry) && |input| - next >= 6
      modifies `hold, `bits, `next
      ensures Reading() && Giving(entry) && IsNext(LENS, codes.lens, old(Stream(later)), Token(op, val, used))
      ensures Stream(later) == Skip(old(Stream(later)), used) && 0 < used <= 15 && Bits() == old(Bits()) - used
      ensures old(bits) < old(Needed(lencode, lenbits, hold)) + 8 ==> bits <= 7 + 8 * (next - old(next))
    {
      hide CodeTable, Needed, Known, Ahead, Pow2, Giving, Low, High;
      ghost var h0, b0, i0 := hold, bits, input[next..] + later;
      FastFill(entry, later);
      FirstCode(lencode, lenbits, LENS, codes.lens, h0, b0, i0, hold, bits, input[next..] + later);
      op, val, used := FastCode(LENS, lencode, lenbits, codes.lens, entry, later);
    }

    /** One turn of the loop of inflate_fast. */
    method FastTurn(ghost entry: nat, ghost later: seq<Byte>)
      requires Tables() && Reading() && Writing() && Windowed() && Giving(entry) && mode == LEN
      requires |input| - next >= 6 && left >= 258
      modifies `hold, `bits, `next, `mode, output, `put, `left, `hist
      ensures Reading() && Writing() && Windowed() && Giving(entry) && (mode == LEN || mode == TYPE || mode == BAD)
      ensures Bits() < old(Bits())
      ensures old(bits) < old(Needed(lencode, lenbits, hold)) + 8 ==> bits <= 7 + 8 * (next - old(next))
      ensures Agree(old(Future(later)), Future(later))
    {
      hide Writing, Windowed, CodeTable, IsNext, Run, Needed, Known, Ahead, Pow2, Giving, Low, High, Agree;
      ghost var hist0, s0, w := hist, Stream(later), window.Length;
      var op, val, used := FastLength(entry, later);
      ghost var t := Token(op, val, used);
      LenStep(codes, w, hist0, s0, t);
      LenToken(s0, codes.lens, t);
      if op == 0 {
        LitStep(codes, w, val, hist0, Stream(later));
        PutByte(val);
        Reflexive(Future(later));
      } else if op / 16 % 2 == 1 {
        ghost var s1 := Stream(later);
        var v := FastExtra(op % 16, entry, later);
        LengthFits(s0, codes.lens, t, s1.value);
        LenExtStep(codes, w, val, op % 16, hist0, s1);
        FastMatch(val + v, entry, later);
      } else {
        mode := if op / 32 % 2 == 1 then TYPE else BAD;
        Reflexive(Future(later));
      }
    }

    /** inflate_fast. On entry more than seven bits may be held, but then the next code needs more of
        them than that; so at least the bytes pulled here are there to give back. */
    method InflateFast(ghost later: seq<Byte>)
      requires Valid() && mode == LEN && |input| - next >= 6 && left >= 258
      modifies `hold, `bits, `next, `mode, output, `put, `left, `hist
      ensures Valid() && (mode == LEN || mode == TYPE || mode == BAD) && bits < 8
      ensures mode == LEN ==> |input| - next < 6 + 3 || left < 258
      ensures Bits() < old(Bits())
      ensures Agree(old(Future(later)), Future(later))
    {
      hide Writing, Windowed, CodeTable, Run, Needed, Ahead, Pow2, Giving, Low, High, Agree, Backed;
      ghost var entry := next;
      GivingNothing();
      FastTurn(entry, later);
      while mode == LEN && |input| - next >= 6 && left >= 258
        invariant Reading() && Writing() && Windowed() && Giving(entry) && (mode == LEN || mode == TYPE || mode == BAD)
        invariant bits <= 7 + 8 * (next - entry) && Bits() < old(Bits())
        invariant Agree(old(Future(later)), Future(later))
        decreases Bits()
      {
        ghost var r := Future(later);
        FastTurn(entry, later);
        AgreeTrans(old(Future(later)), r, Future(later));
      }
      ReturnBytes(entry, later);
    }

    lemma GivingNothing()
      requires next <= |input|
      ensures Giving(next)
    {
    }

    /** Returning unused bytes. */
    method ReturnBytes(ghost entry: nat, ghost later: seq<Byte>)
      requires Reading() && Giving(entry) && bits <= 7 + 8 * (next - entry)
      modifies `hold, `bits, `next
      ensures Reading() && bits < 8 && Stream(later) == old(Stream(later)) && Bits() == old(Bits())
      ensures next >= old(next) - 3
    {
      hide Pow2, Ahead, Low, Backed;
      var len := bits / 8;
      GiveBack(hold, bits, input[..next], input[next..] + later, len);
      assert input[..next][|input[..next]| - len..] + (input[next..] + later) == input[next - len..] + later;
      next := next - len;
      bits := bits - 8 * len;
      hold := Low(hold, bits);
    }

    // ---- the loop, and the call ----

    /** The loop over the states, until input or output space runs out or the block ends. */
    method Decode(ghost later: seq<Byte>)
      requires Valid()
      modifies `hold, `bits, `next, `mode, `length, `offset, `extra, output, `put, `left, `hist
      ensures Valid() && Agree(old(Future(later)), Future(later))
      ensures mode == TYPE || mode == BAD || left == 0 || Starving()
    {
      hide Starving, Pow2, Writing, Windowed, InMode, CodeTable, Run, Ahead, Agree;
      Reflexive(Future(later));
      while true
        invariant Valid() && Agree(old(Future(later)), Future(later))
        decreases Bits(), Stage(Phase()), Left(Phase())
      {
        ghost var r := Future(later);
        Reflexive(r);
        var go := true;
        match mode {
          case LEN =>
            if |input| - next >= 6 && left >= 258 { InflateFast(later); } else { go := StateLen(later); }
          case LENEXT => go := StateLenExt(later);
          case DIST => go := StateDist(later);
          case DISTEXT => go := StateDistExt(later);
          case MATCH => go := StateMatch(later);
          case LIT => go := StateLit(later);
          case TYPE => go := false;
          case BAD => go := false;
        }
        AgreeTrans(old(Future(later)), r, Future(later));
        if !go { break; }
      }
    }

    lemma MadeSoFar()
      requires Writing() && Windowed()
      ensures left <= out && put == origin + (out - left) <= output.Length && output != window
      ensures hist == before + output[origin..put] && Delivered(before, hist, output[..], origin, out - left)
    {
      hide Holds;
      assert output[..][origin..put] == output[origin..put];
      assert hist == before + hist[|hist| - (out - left)..];
    }

    /** Between calls the window holds the end of all the output. */
    ghost predicate Idle()
      reads this, window
    {
      && Tables() && hold < Pow2(bits) && bits <= 30 && InMode()
      && (mode != BAD ==>
            Holds(window[..], wnext, whave, hist) && (wsize == window.Length || (wsize == 0 && hist == [])))
    }

    /** What decoding will have brought in the end, when bytes are what follows. */
    ghost function FutureFrom(bytes: seq<Byte>): Result
      reads `hold, `bits, `mode, `length, `offset, `extra, `hist
    {
      Run(codes, window.Length, PhaseOf(mode, length, offset, extra), hist, Ahead(hold, bits, bytes))
    }

    /** The start of a call: LOAD. */
    method Enter(chunk: seq<Byte>, buffer: array<Byte>, at: nat, avail: nat, ghost later: seq<Byte>)
      requires Idle() && mode != BAD && buffer != window && at + avail <= buffer.Length
      modifies `input, `next, `output, `put, `left, `out, `before, `origin
      ensures Valid() && Future(later) == old(FutureFrom(chunk + later))
      ensures input == chunk && output == buffer && before == hist && origin == at && out == avail
    {
      hide InMode, CodeTable, Run, Ahead, Holds, Pow2, Reading, Writing, Windowed, PhaseOf, WellFormed, Tables, Idle;
      IdleParts();
      input, next, output, put, left, out := chunk, 0, buffer, at, avail, avail;
      before, origin := hist, at;
      assert chunk[0..] == chunk;
      Entered();
    }

    lemma IdleParts()
      requires Idle()
      ensures Tables() && InMode() && hold < Pow2(bits) && bits <= 30
      ensures mode != BAD ==>
                Holds(window[..], wnext, whave, hist) && (wsize == window.Length || (wsize == 0 && hist == []))
    {
      hide Tables, InMode, Holds, Pow2;
    }

    lemma Entered()
      requires hold < Pow2(bits) && bits <= 30
      requires Holds(window[..], wnext, whave, hist) && (wsize == window.Length || (wsize == 0 && hist == []))
      requires output != window && next == 0 && left == out && before == hist && origin == put
      requires put + left <= output.Length
      ensures Reading() && Writing() && Windowed()
    {
      hide Holds, Pow2;
      assert hist[..|hist|] == hist;
    }

    /** The end of a call: inf_leave. */
    method Leave()
      requires Valid()
      modifies `wsize, `wnext, `whave, window
      ensures Idle()
    {
      hide Reading, InMode, CodeTable, Holds, Pow2, Writing, WellFormed;
      ReadingLeft();
      MadeSoFar();
      if wsize != 0 || (out != left && mode != BAD) {
        wsize := window.Length;
        wnext, whave := UpdateWindow(window, wnext, whave, output, put, out - left, before);
      } else if mode != BAD {
        assert hist == before;
      }
    }

    lemma ReadingLeft()
      requires Reading()
      ensures hold < Pow2(bits) && bits <= 30
    {
    }

    method Work(chunk: seq<Byte>, buffer: array<Byte>, at: nat, avail: nat, ghost later: seq<Byte>)
      requires Idle() && mode != BAD && buffer != window && at + avail <= buffer.Length
      modifies this, buffer
      ensures Valid() && Agree(old(FutureFrom(chunk + later)), Future(later))
      ensures input == chunk && output == buffer && before == old(hist) && origin == at && out == avail
      ensures mode == TYPE || mode == BAD || left == 0 || Starving()
    {
      hide InMode, CodeTable, Run, Ahead, Agree, Holds, Pow2, Reading, Writing, Windowed, Tables, Valid, PhaseOf, Idle,
           Future, FutureFrom;
      Enter(chunk, buffer, at, avail, later);
      Decode(later);
    }

    /** inflate, entered in one of the states from LEN to LIT: chunk is the input at hand, and the output
        goes to buffer from at on, at most avail bytes of it. */
    method Inflate(chunk: seq<Byte>, buffer: array<Byte>, at: nat, avail: nat, ghost later: seq<Byte>)
      returns (used: nat, made: nat)
      requires Idle() && mode != BAD && buffer != window && at + avail <= buffer.Length
      modifies this, window, buffer
      ensures Idle() && used <= |chunk| && made <= avail
      ensures Delivered(old(hist), hist, buffer[..], at, made)
      ensures Agree(old(FutureFrom(chunk + later)), FutureFrom(chunk[used..] + later))
      ensures mode == TYPE || mode == BAD || made == avail
              || (used == |chunk| && FutureFrom([]) == Result(hist, Starved, {}))
    {
      hide InMode, CodeTable, Run, Ahead, Agree, Holds, Pow2, Reading, Writing, Windowed, Tables, Valid, PhaseOf, Idle,
           Future, FutureFrom, Delivered, Starving;
      Work(chunk, buffer, at, avail, later);
      ValidParts();
      MadeSoFar();
      FutureIs(later);
      used, made := next, out - left;
      Leave();
    }

    lemma FutureIs(later: seq<Byte>)
      requires next <= |input|
      ensures Future(later) == FutureFrom(input[next..] + later)
      ensures Starving() ==> next == |input| && FutureFrom([]) == Result(hist, Starved, {})
    {
      hide Run, Ahead;
      if next == |input| { assert input[next..] + [] == []; }
    }

    lemma ValidParts()
      requires Valid()
      ensures Tables() && Reading() && Writing() && Windowed() && InMode() && next <= |input|
    {
      hide Tables, Writing, Windowed, InMode;
    }
  }

  /** The first code takes more than the bits held beyond a byte. */
  lemma FirstCode(tab: seq<Code>, root: nat, kind: Kind, lens: seq<int>,
                  hold: nat, bits: nat, bytes: seq<Byte>, hold': nat, bits': nat, bytes': seq<Byte>)
    requires CodeTable(tab, root, kind, lens) && bits <= bits'
             && Ahead(hold, bits, bytes) == Ahead(hold', bits', bytes')
    ensures bits < Needed(tab, root, hold) + 8 ==> bits < Needed(tab, root, hold') + 8
  {
    hide Ahead, Low, Slot, Fetch, IsDecoder, RefusedEarly, Pow2, CodeTable;
    NeededIs(tab, root, kind, lens, hold);
    NeededIs(tab, root, kind, lens, hold');
    if 8 <= bits < Needed(tab, root, hold) + 8 {
      forall k: nat | k <= bits - 8
        ensures Low(hold, k) == Low(hold', k) { SameLow(hold, bits, bytes, hold', bits', bytes', k); }
      StillMore(tab, root, kind, lens, hold, bits - 8, hold');
    }
  }

  /** A length is at most 258. */
  lemma LengthFits(s: Stream, lens: seq<int>, t: Token, value: nat)
    requires |lens| <= MaxSymbols(LENS) && IsNext(LENS, lens, s, t) && t.op / 16 % 2 == 1
    ensures 16 <= t.op <= 21 && 3 <= t.val + Low(value, t.op % 16) <= 258
  {
    hide Pow2, Low, NextCode, High;
    assert t.op % 16 == t.op - 16;
  }

  lemma RepeatedTwice(hist: seq<Byte>, offset: nat, m: nat, n: nat)
    requires 0 < offset <= |hist|
    ensures Repeated(Repeated(hist, offset, m), offset, n) == Repeated(hist, offset, m + n)
    decreases n
  {
    hide Repeated;
    RepeatedNone(Repeated(hist, offset, m), offset);
    if n > 0 {
      RepeatedTwice(hist, offset, m, n - 1);
      RepeatedNext(Repeated(hist, offset, m), offset, n - 1);
      RepeatedNext(hist, offset, m + n - 1);
    }
  }

  lemma LowAfter(hold: nat, m: nat, n: nat)
    ensures Low(High(hold, m), n) == After(hold, m, n)
  {
    LowSplit(hold, m, n);
  }

  /** The tests of inflate_fast tell links apart as well. */
  lemma FastToken(tab: seq<Code>, root: nat, kind: Kind, lens: seq<int>, hold: nat, bits: nat, bytes: seq<Byte>)
    requires CodeTable(tab, root, kind, lens) && |lens| <= MaxSymbols(kind) && bits >= 15 && !kind.CODES?
    requires Pow2(root) <= |tab| && Slot(tab, root, hold) < |tab|
    ensures var e := tab[Low(hold, root)]; e.op != 0 && e.op / 16 % 2 == 0 && e.op / 64 % 2 == 0 <==> IsLink(e)
    ensures IsNext(kind, lens, Ahead(hold, bits, bytes), Fetch(tab, root, hold))
    ensures Fetch(tab, root, hold).used <= Ahead(hold, bits, bytes).count
    ensures Needed(tab, root, hold) == Fetch(tab, root, hold).used <= bits
  {
    hide Pow2, Slot, Ahead, After, Low, High, IsDecoder, RefusedEarly, IsNext, Meaning, Taken;
    FetchSafe(tab, root, kind, lens, hold);
    NeededIs(tab, root, kind, lens, hold);
    NowDecoded(tab, root, kind, lens, hold, bits, bytes, Fetch(tab, root, hold));
    var e := tab[Low(hold, root)];
    if !IsLink(e) { DirectIndex(tab, root, hold); }
  }

  function Whole(pulled: nat, bits: nat): nat {
    if pulled < bits / 8 then pulled else bits / 8
  }

  lemma NoBits(s: Stream)
    ensures Low(s.value, 0) == 0 && Skip(s, 0) == s
  {
    Pow2Of1();
  }

  lemma DistToken(s: Stream, lens: seq<int>, t: Token)
    requires |lens| <= MaxSymbols(DISTS) && IsNext(DISTS, lens, s, t)
    ensures t.used > 0 && (t.op == 64 || (16 <= t.op <= 29 && 1 <= t.val))
    ensures t.op / 16 % 2 == 1 <==> t.op < 64
  {
    hide NextCode, Meaning;
    if NextCode(DISTS, lens, s).Coded? {
      var sym := CodedSymbol(DISTS, lens, s);
      DistanceMeaning(sym);
    }
  }

  lemma LenToken(s: Stream, lens: seq<int>, t: Token)
    requires |lens| <= MaxSymbols(LENS) && IsNext(LENS, lens, s, t)
    ensures t.used > 0 && (t.op == 0 ==> t.val < 256)
    ensures t.op == 0 || t.op == 96 || t.op == 64 || t.op == 68 || t.op == 78 || (16 <= t.op <= 21 && 3 <= t.val)
  {
    hide NextCode, Meaning;
    if NextCode(LENS, lens, s).Coded? {
      var sym := CodedSymbol(LENS, lens, s);
      LengthMeaning(sym);
    }
  }
}
