/** What a decompressed stream vouches for: the checksums it carries for each block and for all of them. */
module StreamChecks {
  import opened Permutations
  import opened Bits
  import opened BitStream
  import opened BlockCrc
  import opened BlockReader
  import opened StreamFormat

  /** The bits of a magic number and a checksum, and of a stream header. */
  const MARK_BITS := 80
  const HEADER_BITS := 32

  /** The bits at position p of the input. */
  ghost predicate Holds(input: seq<bool>, p: nat, bits: seq<bool>) {
    p <= |input| && bits <= input[p..]
  }

  ghost function SumOf(part: seq<Byte>): bv32 {
    Finalise(CrcOf(INITIAL, part))
  }

  /** The combined checksum of blocks with the given outputs. */
  ghost function SumsOf(parts: seq<seq<Byte>>): bv32 {
    if parts == [] then 0 else Combine(SumsOf(parts[..|parts| - 1]), SumOf(parts[|parts| - 1]))
  }

  /** How a block with a given output begins. */
  ghost function BlockMark(part: seq<Byte>): seq<bool> {
    BytesToBits(BLOCK_MAGIC) + SumBits(SumOf(part))
  }

  /** How a stream of blocks with given outputs ends. */
  ghost function EndMark(parts: seq<seq<Byte>>): seq<bool> {
    BytesToBits(END_MAGIC) + SumBits(SumsOf(parts))
  }

  /** The input starts with the header of a stream of this level. */
  ghost predicate Headed(input: seq<bool>, level: int) {
    1 <= level <= 9 && |input| >= HEADER_BITS && HeaderBits(level) <= input
  }

  /** Marks at these places follow one another behind the stream header, and end before the given place. */
  ghost predicate InOrder(marks: seq<nat>, end: nat) {
    && HEADER_BITS <= end && (forall i | 0 <= i < |marks| :: HEADER_BITS <= marks[i] && marks[i] + MARK_BITS <= end)
    && forall i, j | 0 <= i < j < |marks| :: marks[i] + MARK_BITS <= marks[j]
  }

  ghost predicate Marked(input: seq<bool>, parts: seq<seq<Byte>>, marks: seq<nat>, end: nat) {
    && |marks| == |parts| && InOrder(marks, end) && Holds(input, end, EndMark(parts))
    && forall i | 0 <= i < |parts| :: Holds(input, marks[i], BlockMark(parts[i]))
  }

  /** The input starts with a stream header, holds, one behind the other, a block header with the checksum of each part,
      and behind them a trailer with the combined checksum of all. */
  ghost predicate Vouched(input: seq<bool>, parts: seq<seq<Byte>>) {
    && (exists level :: Headed(input, level))
    && exists marks: seq<nat>, end: nat :: Marked(input, parts, marks, end)
  }

  // ---- while the stream is being read ----

  /** The stream header has been read, and a header for each of the parts, up to the given place; their sums are
      combined. */
  ghost predicate OnRecord(input: seq<bool>, parts: seq<seq<Byte>>, marks: seq<nat>, combined: bv32, level: int,
                           reached: nat) {
    && Headed(input, level) && combined == SumsOf(parts) && |parts| <= |marks|
    && InOrder(marks, reached)
    && forall i | 0 <= i < |parts| :: Holds(input, marks[i], BlockMark(parts[i]))
  }

  /** The header of one more block has been read, with its checksum; out is the output so far and crc the checksum of
      what belongs to this block. */
  ghost predicate BlockOpen(input: seq<bool>, parts: seq<seq<Byte>>, mark: nat, stored: int, out: seq<Byte>,
                            crc: bv32) {
    && 0 <= stored < WORD && Holds(input, mark, BytesToBits(BLOCK_MAGIC) + ToBits(stored, 32))
    && Flatten(parts) <= out && crc == CrcOf(INITIAL, out[|Flatten(parts)|..])
  }

  lemma SumsAppend(parts: seq<seq<Byte>>, part: seq<Byte>)
    ensures SumsOf(parts + [part]) == Combine(SumsOf(parts), SumOf(part))
  {
    hide Combine, SumOf;
    assert (parts + [part])[..|parts|] == parts;
  }

  lemma TailSize(u: seq<bool>, input: seq<bool>)
    requires IsTail(u, input)
    ensures |u| <= |input|
  {
  }

  /** A magic number, its first byte read before the others, and a checksum after it. */
  lemma MarkRead(input: seq<bool>, u0: seq<bool>, u1: seq<bool>, magic: seq<Byte>, sum: seq<bool>)
    requires IsTail(u0, input) && magic != []
    requires Coming(u0, ToBits(magic[0], 8), u1) && BytesToBits(magic[1..]) + sum <= u1
    ensures Holds(input, |input| - |u0|, BytesToBits(magic) + sum)
  {
    hide ToBits, BytesToBits;
    BytesHead(magic);
    var a, b := ToBits(magic[0], 8), BytesToBits(magic[1..]);
    var left := u1[|b + sum|..];
    assert u1 == b + sum + left;
    assert u0 == (a + b) + sum + left;
  }

  /** The other bytes of a magic number, then a checksum. */
  lemma TailRead(u: seq<bool>, magic: seq<bool>, u': seq<bool>, sum: seq<bool>)
    requires Coming(u, magic, u') && sum <= u'
    ensures magic + sum <= u
  {
    assert u == magic + sum + u'[|sum|..];
  }

  /** The stream header. */
  lemma HeaderRead(input: seq<bool>, u: seq<bool>, u': seq<bool>, level: int)
    requires 1 <= level <= 9
    requires Coming(input, BytesToBits(HEADER_BYTES), u) && Coming(u, ToBits(BZ_HDR_0 + level, 8), u')
    ensures OnRecord(input, [], [], 0, level, HEADER_BITS) && Flatten<Byte>([]) == []
  {
    hide ToBits, BytesToBits;
    BytesAppend(HEADER_BYTES, BZ_HDR_0 + level);
    assert input == BytesToBits(HEADER_BYTES) + ToBits(BZ_HDR_0 + level, 8) + u';
  }

  /** A block header. */
  lemma BlockOpens(input: seq<bool>, parts: seq<seq<Byte>>, marks: seq<nat>, combined: bv32, level: int, reached: nat,
                   u0: seq<bool>, u1: seq<bool>, stored: int)
    requires OnRecord(input, parts, marks, combined, level, reached) && |marks| == |parts| && IsTail(u0, input)
    requires reached + |u0| <= |input|
    requires Coming(u0, ToBits(0x31, 8), u1) && 0 <= stored < WORD
    requires BytesToBits(BLOCK_MAGIC[1..]) + ToBits(stored, 32) <= u1
    ensures OnRecord(input, parts, marks + [|input| - |u0|], combined, level, |input| - |u0| + MARK_BITS)
    ensures BlockOpen(input, parts, |input| - |u0|, stored, Flatten(parts), INITIAL)
  {
    hide HeaderBits, BlockMark, Holds, Flatten, ToBits, BytesToBits, SumsOf, Coming;
    MarkRead(input, u0, u1, BLOCK_MAGIC, ToBits(stored, 32));
    assert Flatten(parts)[|Flatten(parts)|..] == [];
  }

  /** More output of the same block. */
  lemma BlockGrows(input: seq<bool>, parts: seq<seq<Byte>>, mark: nat, stored: int, out: seq<Byte>, crc: bv32,
                   more: seq<Byte>)
    requires BlockOpen(input, parts, mark, stored, out, crc)
    ensures BlockOpen(input, parts, mark, stored, out + more, CrcOf(crc, more))
  {
    hide CrcOf, Holds, Flatten;
    var before := Flatten(parts);
    CrcConcat(INITIAL, out[|before|..], more);
    assert (out + more)[|before|..] == out[|before|..] + more;
  }

  /** A finished block whose checksum is the one in its header is one more part. */
  lemma BlockChecked(input: seq<bool>, parts: seq<seq<Byte>>, marks: seq<nat>, combined: bv32, level: int,
                     reached: nat, stored: int, out: seq<Byte>, crc: bv32)
    requires OnRecord(input, parts, marks, combined, level, reached) && |marks| == |parts| + 1
    requires BlockOpen(input, parts, marks[|parts|], stored, out, crc) && Finalise(crc) as int == stored
    ensures |Flatten(parts)| <= |out|
    ensures var parts' := parts + [out[|Flatten(parts)|..]];
            OnRecord(input, parts', marks, Combine(combined, Finalise(crc)), level, reached) && Flatten(parts') == out
  {
    hide Flatten, ToBits, BytesToBits, Combine, SumsOf, Holds, Headed, InOrder, CrcOf, Finalise, BlockMark, SumOf;
    var part := out[|Flatten(parts)|..];
    FlattenMore(parts, part);
    SumsAppend(parts, part);
    MarkIs(part, crc, stored);
  }

  lemma MarkIs(part: seq<Byte>, crc: bv32, stored: int)
    requires crc == CrcOf(INITIAL, part) && Finalise(crc) as int == stored
    ensures SumOf(part) == Finalise(crc) && BlockMark(part) == BytesToBits(BLOCK_MAGIC) + ToBits(stored, 32)
  {
    hide ToBits, BytesToBits, CrcOf, Finalise;
  }

  /** The trailer. */
  lemma TrailerFound(input: seq<bool>, parts: seq<seq<Byte>>, marks: seq<nat>, combined: bv32, level: int,
                     reached: nat, u0: seq<bool>, u1: seq<bool>)
    requires OnRecord(input, parts, marks, combined, level, reached) && IsTail(u0, input)
    requires reached + |u0| <= |input|
    requires Coming(u0, ToBits(0x17, 8), u1) && BytesToBits(END_MAGIC[1..]) + ToBits(combined as int, 32) <= u1
    ensures EndBehind(input, parts, reached)
  {
    hide HeaderBits, BlockMark, Holds, ToBits, BytesToBits, SumsOf, Coming;
    MarkRead(input, u0, u1, END_MAGIC, ToBits(combined as int, 32));
    assert Holds(input, |input| - |u0|, EndMark(parts));
  }

  /** The trailer comes at the given place or behind it. */
  ghost predicate EndBehind(input: seq<bool>, parts: seq<seq<Byte>>, reached: nat) {
    exists end: nat :: end >= reached && Holds(input, end, EndMark(parts))
  }

  lemma VouchedFor(input: seq<bool>, parts: seq<seq<Byte>>, marks: seq<nat>, combined: bv32, level: int, reached: nat)
    requires OnRecord(input, parts, marks, combined, level, reached) && EndBehind(input, parts, reached)
    requires |marks| == |parts|
    ensures Vouched(input, parts)
  {
    hide BlockMark, EndMark, Holds, SumsOf;
    var end: nat :| end >= reached && Holds(input, end, EndMark(parts));
    assert Marked(input, parts, marks, end);
  }
}
