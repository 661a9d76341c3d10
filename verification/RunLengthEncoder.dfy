/** The input side of the compressor, as state: the block being filled, its runs, and the run in progress. */
module RunLengthEncoder {
  import opened Permutations
  import opened RunLength
  import opened BlockCrc

  /** state_in_ch when no run is in progress. */
  const NO_CHAR := 256

  /** A run of ch may follow the runs so far. */
  ghost predicate Apart(runs: seq<Run>, ch: int) {
    |runs| > 0 ==> runs[|runs| - 1].ch != ch || runs[|runs| - 1].len == 255
  }

  ghost predicate PendingOk(runs: seq<Run>, ch: int, len: int) {
    (ch == NO_CHAR && len == 0) || (0 <= ch < 256 && 1 <= len <= 255 && Apart(runs, ch))
  }

  /** The input of the run in progress. */
  ghost function Pending(ch: int, len: int): seq<Byte> {
    if 0 <= ch < 256 && len >= 0 then Rep(ch, len) else []
  }

  /** The block holds the runs, its checksum is that of what they spell, and exactly its bytes are marked. */
  ghost predicate Filling(block: seq<Byte>, runs: seq<Run>, ch: int, len: int, crc: bv32, used: seq<bool>) {
    && GoodRuns(runs) && Separated(runs) && block == Stored(runs) && PendingOk(runs, ch, len)
    && crc == CrcOf(INITIAL, Spelled(runs))
    && InUseOf(used, block)
  }

  /** The bytes a run adds to a block. */
  ghost predicate Marks(used: seq<bool>, used': seq<bool>, r: Run)
    requires |used| == |used'| == 256
  {
    forall c | 0 <= c < 256 :: used'[c] <==> used[c] || c == r.ch || (4 <= r.len <= 255 && c == r.len - 4)
  }

  lemma SeparatedAppend(runs: seq<Run>, r: Run)
    requires Separated(runs) && Apart(runs, r.ch)
    ensures Separated(runs + [r])
  {
    var all := runs + [r];
    forall i | 0 <= i < |all| - 1 ensures all[i].ch != all[i + 1].ch || all[i].len == 255 {
      if i < |runs| - 1 { assert all[i] == runs[i] && all[i + 1] == runs[i + 1]; }
    }
  }

  lemma InPair(r: Run, c: int)
    requires 1 <= r.len <= 255
    ensures c in Pair(r) <==> c == r.ch || (r.len >= 4 && c == r.len - 4)
  {
    var p := Pair(r);
    assert p[0] == r.ch;
    if r.len >= 4 { assert p[4] == r.len - 4; }
  }

  /** Storing the run in progress. */
  lemma RunStored(block: seq<Byte>, runs: seq<Run>, ch: Byte, len: int, crc: bv32, used: seq<bool>, used': seq<bool>)
    requires Filling(block, runs, ch, len, crc, used) && |used'| == 256 && Marks(used, used', Run(ch, len))
    ensures 1 <= len <= 255
    ensures Filling(block + Pair(Run(ch, len)), runs + [Run(ch, len)], NO_CHAR, 0, CrcOf(crc, Rep(ch, len)), used')
    ensures Spelled(runs + [Run(ch, len)]) == Spelled(runs) + Rep(ch, len)
  {
    hide CrcOf, Stored, Spelled, Separated;
    var r := Run(ch, len);
    StoredAppend(runs, r);
    SeparatedAppend(runs, r);
    CrcConcat(INITIAL, Spelled(runs), Rep(ch, len));
    forall c | 0 <= c < 256 ensures used'[c] <==> c in block + Pair(r) { InPair(r, c); }
  }

  /** Starting a run after the last one stored. */
  lemma RunStarted(block: seq<Byte>, runs: seq<Run>, crc: bv32, used: seq<bool>, c: Byte)
    requires Filling(block, runs, NO_CHAR, 0, crc, used) && Apart(runs, c)
    ensures Filling(block, runs, c, 1, crc, used)
  {
  }

  lemma RunExtended(block: seq<Byte>, runs: seq<Run>, ch: int, len: int, crc: bv32, used: seq<bool>)
    requires Filling(block, runs, ch, len, crc, used) && 0 <= ch < 256 && len < 255
    ensures Filling(block, runs, ch, len + 1, crc, used)
    ensures Pending(ch, len + 1) == Pending(ch, len) + [ch]
  {
  }

  lemma FillingFacts(block: seq<Byte>, runs: seq<Run>, ch: int, len: int, crc: bv32, used: seq<bool>)
    requires Filling(block, runs, ch, len, crc, used)
    ensures (ch == NO_CHAR && len == 0) || (0 <= ch < 256 && 1 <= len <= 255 && Apart(runs, ch))
    ensures GoodRuns(runs) && block == Stored(runs) && |used| == 256
  {
  }

  /** A new block starts empty, whatever run is in progress. */
  lemma FillingStarts(ch: int, len: int, used: seq<bool>)
    requires |used| == 256 && PendingOk([], ch, len) && forall c | 0 <= c < 256 :: !used[c]
    ensures Filling([], [], ch, len, INITIAL, used)
  {
  }

  lemma PendingAnywhere(runs: seq<Run>, ch: int, len: int)
    requires PendingOk(runs, ch, len)
    ensures PendingOk([], ch, len)
  {
  }

  lemma ApartFromNew(runs: seq<Run>, r: Run, c: int)
    requires r.ch != c || r.len == 255
    ensures Apart(runs + [r], c)
  {
  }
}
