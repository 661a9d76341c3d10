/** The receiving half of BZ2_decompress: every reader takes from the input exactly what its writer sent, and
    nothing of what follows. */
module BlockReader {
  import opened Bits
  import opened BitStream
  import opened Huffman
  import opened BlockFormat

  /** Overrun: an array of BZ_MAX_SELECTORS entries has been left. */
  datatype Status = Good | Bad | Hungry | Overrun

  /** The input is bits, then rest. */
  ghost predicate Coming(unread: seq<bool>, bits: seq<bool>, rest: seq<bool>) {
    unread == bits + rest
  }

  lemma NextBits(unread: seq<bool>, chunk: seq<bool>, bits: seq<bool>, rest: seq<bool>)
    requires Coming(unread, chunk + bits, rest)
    ensures |unread| >= |chunk| && unread[..|chunk|] == chunk
    ensures Coming(unread[|chunk|..], bits, rest)
  {
    assert unread == chunk + (bits + rest);
  }

  /** Bits read after bits read. */
  lemma ReadOn(u: seq<bool>, done: seq<bool>, next: seq<bool>, left: seq<bool>, left': seq<bool>)
    requires Coming(u, done, left) && Coming(left, next, left')
    ensures Coming(u, done + next, left')
  {
    assert done + (next + left') == (done + next) + left';
  }

  /** GET_BIT. */
  method GetBit(r: BitReader) returns (ok: bool, b: bool)
    requires r.Valid()
    modifies r
    ensures r.Valid()
    ensures ok <==> |old(r.Unread())| >= 1
    ensures ok ==> b == old(r.Unread())[0] && r.Unread() == old(r.Unread())[1..]
    ensures !ok ==> r.Unread() == old(r.Unread()) && r.nextIn == []
  {
    hide ToBits, BytesToBits, IsTail;
    ghost var bits := r.Unread();
    var v;
    ok, v := r.Get(1);
    if ok { FirstBit(bits); }
    b := v == 1;
  }

  lemma FirstBit(bits: seq<bool>)
    requires |bits| >= 1
    ensures Value(bits[..1]) == if bits[0] then 1 else 0
  {
    assert bits[..1] == [] + [bits[0]];
    ValueAppend([], bits[0]);
  }

  /** GET_BITS for a number that was sent with as many bits. */
  method GetNumber(r: BitReader, n: int, ghost v: nat, ghost bits: seq<bool>, ghost rest: seq<bool>)
    returns (ok: bool, x: int)
    requires r.Valid() && 0 <= n <= 24
    modifies r
    ensures r.Valid() && (!ok ==> r.nextIn == []) && (ok ==> 0 <= x < Pow2(n))
    ensures ok ==> Coming(old(r.Unread()), ToBits(x, n), r.Unread()) && |r.Unread()| <= |old(r.Unread())|
    ensures v < Pow2(n) && Coming(old(r.Unread()), ToBits(v, n) + bits, rest) ==>
              ok && x == v && Coming(r.Unread(), bits, rest)
  {
    hide ToBits, BytesToBits, Pow2, Coming, IsTail;
    ghost var u := r.Unread();
    if v < Pow2(n) && Coming(u, ToBits(v, n) + bits, rest) {
      NextBits(u, ToBits(v, n), bits, rest);
      ValueToBits(v, n);
    }
    ok, x := r.Get(n);
    if ok { NumberRead(u, n, x); }
  }

  lemma NumberRead(u: seq<bool>, n: nat, x: int)
    requires |u| >= n && x == Value(u[..n])
    ensures 0 <= x < Pow2(n) && Coming(u, ToBits(x, n), u[n..])
  {
    hide ToBits, Value, Pow2;
    ToBitsValue(u[..n]);
    assert u == u[..n] + u[n..];
  }

  // ---- the mapping table ----

  ghost function Trues(bits: seq<bool>): nat {
    if bits == [] then 0 else Trues(bits[..|bits| - 1]) + if bits[|bits| - 1] then 1 else 0
  }

  lemma {:induction false} TruesGrow(bits: seq<bool>, i: nat)
    requires i <= |bits|
    ensures Trues(bits[..i]) <= Trues(bits)
    decreases |bits| - i
  {
    if i == |bits| {
      assert bits[..i] == bits;
    } else {
      assert bits[..i + 1][..i] == bits[..i];
      TruesGrow(bits, i + 1);
    }
  }

  lemma TruesNext(bits: seq<bool>, i: nat)
    requires i < |bits|
    ensures Trues(bits[..i + 1]) == Trues(bits[..i]) + if bits[i] then 1 else 0
    ensures Trues(bits[..i + 1]) <= Trues(bits)
  {
    assert bits[..i + 1][..i] == bits[..i];
    TruesGrow(bits, i + 1);
  }

  /** How many bits a mapping table takes: sixteen flags, and sixteen bits for each that is set. */
  ghost function MappingSize(u: seq<bool>): nat
    requires |u| >= 16
  {
    16 + 16 * Trues(u[..16])
  }

  ghost predicate HasMapping(u: seq<bool>) {
    |u| >= 16 && |u| >= MappingSize(u)
  }

  /** The mapping table: any one is accepted, and exactly its bits are taken. */
  method ReadMapping(r: BitReader, inUse: array<bool>, ghost want: seq<bool>, ghost bits: seq<bool>,
                     ghost rest: seq<bool>)
    returns (ok: bool)
    requires r.Valid() && inUse.Length == 256
    modifies r, inUse
    ensures r.Valid() && (!ok ==> r.nextIn == []) && (ok <==> HasMapping(old(r.Unread())))
    ensures ok ==> var u := old(r.Unread());
                   r.Unread() == u[MappingSize(u)..] && (true in inUse[..] <==> true in u[16..MappingSize(u)])
    ensures |want| == 256 && Coming(old(r.Unread()), MappingBits(want) + bits, rest) ==>
              ok && inUse[..] == want && Coming(r.Unread(), bits, rest)
  {
    hide MappingBits, RangesFrom, RangeUsed, RangeFlags, Coming, BitReader.Valid, Trues;
    ghost var u := r.Unread();
    ghost var good := |want| == 256 && Coming(u, MappingBits(want) + bits, rest);
    if good { MappingParts(want, bits, u, rest); }
    var inUse16 := new bool[16];
    ok := ReadFlags(r, inUse16);
    if !ok { return; }
    ghost var u16 := r.Unread();
    for i := 0 to 256
      invariant forall c | 0 <= c < i :: !inUse[c]
      invariant r.Valid() && r.Unread() == u16 && inUse16[..] == u[..16]
    {
      inUse[i] := false;
    }
    ok := ReadRanges(r, inUse, inUse16, want, bits, rest);
    MappingTaken(u, u16, r.Unread());
  }

  lemma MappingTaken(u: seq<bool>, u16: seq<bool>, u': seq<bool>)
    requires |u| >= 16 && u16 == u[16..]
    ensures HasMapping(u) <==> |u16| >= 16 * Trues(u[..16])
    ensures HasMapping(u) && u' == u16[16 * Trues(u[..16])..] ==> u' == u[MappingSize(u)..]
    ensures HasMapping(u) ==> u16[..16 * Trues(u[..16])] == u[16..MappingSize(u)]
  {
    hide Trues;
  }

  /** Which of the sixteen ranges are used. */
  method ReadFlags(r: BitReader, inUse16: array<bool>) returns (ok: bool)
    requires r.Valid() && inUse16.Length == 16
    modifies r, inUse16
    ensures r.Valid() && (!ok ==> r.nextIn == []) && (ok <==> |old(r.Unread())| >= 16)
    ensures ok ==> inUse16[..] == old(r.Unread())[..16] && r.Unread() == old(r.Unread())[16..]
  {
    hide BitReader.Valid;
    for i := 0 to 16
      invariant r.Valid() && i <= |old(r.Unread())| && r.Unread() == old(r.Unread())[i..]
      invariant forall k | 0 <= k < i :: inUse16[k] == old(r.Unread())[k]
    {
      var uc;
      ok, uc := GetBit(r);
      if !ok { return; }
      inUse16[i] := uc;
    }
    ok := true;
  }

  /** Which bytes of the ranges in use are used. */
  method ReadRanges(r: BitReader, inUse: array<bool>, inUse16: array<bool>, ghost want: seq<bool>,
                    ghost bits: seq<bool>, ghost rest: seq<bool>)
    returns (ok: bool)
    requires r.Valid() && inUse.Length == 256 && inUse16.Length == 16 && inUse != inUse16
    requires forall c | 0 <= c < 256 :: !inUse[c]
    modifies r, inUse
    ensures r.Valid() && (!ok ==> r.nextIn == [])
    ensures ok <==> |old(r.Unread())| >= 16 * Trues(inUse16[..])
    ensures ok ==> var n := 16 * Trues(inUse16[..]);
                   r.Unread() == old(r.Unread())[n..] && (true in inUse[..] <==> true in old(r.Unread())[..n])
    ensures |want| == 256 && inUse16[..] == RangeFlags(want)
            && Coming(old(r.Unread()), RangesFrom(want, 0) + bits, rest)
            ==> ok && inUse[..] == want && Coming(r.Unread(), bits, rest)
  {
    hide RangesFrom, RangeUsed, RangeFlags, Coming, BitReader.Valid, Trues;
    ghost var u, flags := r.Unread(), inUse16[..];
    ghost var good := |want| == 256 && flags == RangeFlags(want) && Coming(u, RangesFrom(want, 0) + bits, rest);
    NoTrues(flags, inUse[..], u);
    ghost var n := 0;
    for i := 0 to 16
      invariant r.Valid() && inUse16[..] == flags && n == 16 * Trues(flags[..i]) && Taken(u, n, r.Unread())
      invariant true in inUse[..] <==> true in u[..n]
      invariant good ==> Coming(r.Unread(), RangesFrom(want, i) + bits, rest)
      invariant good ==> forall c | 0 <= c < 16 * i :: inUse[c] == want[c]
      invariant forall c | 16 * i <= c < 256 :: !inUse[c]
    {
      if good { RangeParts(want, i, bits); }
      TruesNext(flags, i);
      if inUse16[i] {
        ghost var used0, u0 := inUse[..], r.Unread();
        ghost var bits' := if good then RangesFrom(want, i + 1) + bits else [];
        ok := ReadRange(r, inUse, i);
        if good { RangeMatches(u0, want[16 * i..16 * i + 16], bits', rest); }
        if !ok { return; }
        MoreTrues(u, n, u0, r.Unread(), used0, inUse[..], i);
        n := n + 16;
        if good {
          forall c | 0 <= c < 16 * i + 16 ensures inUse[c] == want[c] {
            if c >= 16 * i { assert inUse[16 * i..16 * i + 16][c - 16 * i] == want[16 * i..16 * i + 16][c - 16 * i]; }
          }
        }
      } else if good {
        assert [] + (RangesFrom(want, i + 1) + bits) == RangesFrom(want, i + 1) + bits;
      }
    }
    assert flags[..16] == flags;
    if good { RangesDone(want, bits); }
    ok := true;
  }

  /** n bits of u have been taken. */
  ghost predicate Taken(u: seq<bool>, n: nat, u': seq<bool>) {
    n <= |u| && u' == u[n..]
  }

  lemma NoTrues(flags: seq<bool>, inUse: seq<bool>, u: seq<bool>)
    requires forall c | 0 <= c < |inUse| :: !inUse[c]
    ensures Trues(flags[..0]) == 0 && true !in inUse && true !in u[..0] && Taken(u, 0, u)
  {
  }

  lemma MoreTrues(u: seq<bool>, n: nat, u0: seq<bool>, u': seq<bool>, used0: seq<bool>, used: seq<bool>, i: nat)
    requires Taken(u, n, u0) && |u0| >= 16 && u' == u0[16..] && i < 16 && |used0| == |used| == 256
    requires used[16 * i..16 * i + 16] == u0[..16]
    requires forall c | 0 <= c < 256 && !(16 * i <= c < 16 * i + 16) :: used[c] == used0[c]
    requires forall c | 16 * i <= c < 256 :: !used0[c]
    requires true in used0 <==> true in u[..n]
    ensures Taken(u, n + 16, u') && (true in used <==> true in u[..n + 16])
  {
    assert u[..n + 16] == u[..n] + u0[..16];
    if true in used {
      var c :| 0 <= c < 256 && used[c];
      if 16 * i <= c < 16 * i + 16 {
        assert used[16 * i..16 * i + 16][c - 16 * i];
      } else {
        assert used0[c];
      }
    }
    if true in u[..n] {
      var c :| 0 <= c < 256 && used0[c];
      assert used[c];
    }
    if true in u0[..16] {
      var k :| 0 <= k < 16 && u0[k];
      assert used[16 * i..16 * i + 16][k] == used[16 * i + k];
    }
  }

  lemma RangeMatches(u: seq<bool>, chunk: seq<bool>, bits: seq<bool>, rest: seq<bool>)
    requires Coming(u, chunk + bits, rest) && |chunk| == 16
    ensures |u| >= 16 && u[..16] == chunk && Coming(u[16..], bits, rest)
  {
    assert u == chunk + (bits + rest);
  }

  lemma MappingParts(want: seq<bool>, bits: seq<bool>, u: seq<bool>, rest: seq<bool>)
    requires |want| == 256 && Coming(u, MappingBits(want) + bits, rest)
    ensures |u| >= 16 && u[..16] == RangeFlags(want) && Coming(u[16..], RangesFrom(want, 0) + bits, rest)
  {
    hide RangeUsed, RangesFrom;
    assert u == RangeFlags(want) + (RangesFrom(want, 0) + bits + rest);
  }

  lemma RangeParts(want: seq<bool>, i: nat, bits: seq<bool>)
    requires |want| == 256 && i < 16
    ensures RangesFrom(want, i) + bits
         == (if RangeFlags(want)[i] then want[16 * i..16 * i + 16] else []) + (RangesFrom(want, i + 1) + bits)
    ensures !RangeFlags(want)[i] ==> forall c | 16 * i <= c < 16 * i + 16 :: !want[c]
  {
  }

  lemma RangesDone(want: seq<bool>, bits: seq<bool>)
    requires |want| == 256
    ensures RangesFrom(want, 16) + bits == bits
  {
  }

  method ReadRange(r: BitReader, inUse: array<bool>, i: int) returns (ok: bool)
    requires r.Valid() && inUse.Length == 256 && 0 <= i < 16
    requires forall c | 16 * i <= c < 256 :: !inUse[c]
    modifies r, inUse
    ensures r.Valid() && (!ok ==> r.nextIn == []) && (ok <==> |old(r.Unread())| >= 16)
    ensures forall c | 0 <= c < 256 && !(16 * i <= c < 16 * i + 16) :: inUse[c] == old(inUse[c])
    ensures ok ==> inUse[16 * i..16 * i + 16] == old(r.Unread())[..16] && r.Unread() == old(r.Unread())[16..]
  {
    hide BitReader.Valid, ToBits, BytesToBits, IsTail, Pow2;
    for j := 0 to 16
      invariant r.Valid() && j <= |old(r.Unread())| && r.Unread() == old(r.Unread())[j..]
      invariant forall c | 0 <= c < 256 && !(16 * i <= c < 16 * i + j) :: inUse[c] == old(inUse[c])
      invariant forall k | 0 <= k < j :: inUse[16 * i + k] == old(r.Unread())[k]
    {
      var uc;
      ok, uc := GetBit(r);
      if !ok { return; }
      if uc { inUse[16 * i + j] := true; }
    }
    ok := true;
  }

  lemma WidthPowers()
    ensures Pow2(3) == 8 && Pow2(5) == 32 && Pow2(15) == 32768
  {
    assert Pow2(3) == 8;
    Pow2Add(5, 5);
    Pow2Add(10, 5);
  }

  // ---- the coding tables ----

  /** One table of lengths, each between 1 and 20. */
  method ReadTable(r: BitReader, len: array<int>, alphaSize: int, ghost lens: seq<int>, ghost bits: seq<bool>,
                   ghost rest: seq<bool>)
    returns (status: Status)
    requires r.Valid() && 0 < alphaSize <= len.Length <= BZ_MAX_ALPHA_SIZE
    modifies r, len
    ensures r.Valid() && !status.Overrun?
    ensures status.Good? ==> Lengths(len[..alphaSize]) && |r.Unread()| <= |old(r.Unread())|
    ensures |lens| == alphaSize && Lengths(lens) && Coming(old(r.Unread()), TableBits(lens) + bits, rest) ==>
              status.Good? && len[..alphaSize] == lens && Coming(r.Unread(), bits, rest)
  {
    hide ToBits, Coming, DeltasFrom, Pow2, Delta, IsTail;
    ghost var good := |lens| == alphaSize && Lengths(lens) && Coming(r.Unread(), TableBits(lens) + bits, rest);
    WidthPowers();
    ghost var tail := if good then DeltasFrom(lens, 0, lens[0]) + bits else [];
    if good { TableParts(lens, bits); }
    var ok, curr := GetNumber(r, 5, if good then lens[0] else 0, tail, rest);
    if !ok { return Hungry; }
    for i := 0 to alphaSize
      invariant r.Valid() && |r.Unread()| <= |old(r.Unread())| && forall k | 0 <= k < i :: 1 <= len[k] <= 20
      invariant good ==>
                  len[..i] == lens[..i] && 1 <= curr <= 20 && Coming(r.Unread(), DeltasFrom(lens, i, curr) + bits, rest)
    {
      ghost var len0 := len[..i];
      if good { DeltaParts(lens, i, curr, bits); }
      status, curr := ReadDelta(r, curr, if good then lens[i] else 0,
                                if good then DeltasFrom(lens, i + 1, lens[i]) + bits else [], rest);
      if !status.Good? { return; }
      len[i] := curr;
      assert len[..i + 1] == len0 + [curr];
      if good { assert lens[..i + 1] == lens[..i] + [lens[i]]; }
    }
    if good { DeltasDone(lens, curr, bits); }
    status := Good;
  }

  lemma TableParts(lens: seq<int>, bits: seq<bool>)
    requires Lengths(lens)
    ensures TableBits(lens) + bits == ToBits(lens[0], 5) + (DeltasFrom(lens, 0, lens[0]) + bits)
  {
    hide ToBits, IsTail;
  }

  lemma DeltaParts(lens: seq<int>, i: nat, c: int, bits: seq<bool>)
    requires i < |lens|
    ensures DeltasFrom(lens, i, c) + bits == Delta(c, lens[i]) + (DeltasFrom(lens, i + 1, lens[i]) + bits)
  {
    hide Delta;
  }

  lemma DeltasDone(lens: seq<int>, c: int, bits: seq<bool>)
    ensures DeltasFrom(lens, |lens|, c) + bits == bits
  {
  }

  lemma DeltaHead(c: int, t: int, bits: seq<bool>)
    ensures Delta(c, t) + bits == if c < t then [true] + ([false] + (Delta(c + 1, t) + bits))
                                  else if c > t then [true] + ([true] + (Delta(c - 1, t) + bits))
                                  else [false] + bits
  {
  }

  /** Steps the running length up and down until a zero comes. */
  method ReadDelta(r: BitReader, curr0: int, ghost want: int, ghost bits: seq<bool>, ghost rest: seq<bool>)
    returns (status: Status, curr: int)
    requires r.Valid()
    modifies r
    ensures r.Valid() && !status.Overrun? && (status.Good? ==> 1 <= curr <= 20)
    ensures |r.Unread()| <= |old(r.Unread())|
    ensures 1 <= curr0 <= 20 && 1 <= want <= 20 && Coming(old(r.Unread()), Delta(curr0, want) + bits, rest) ==>
              status.Good? && curr == want && Coming(r.Unread(), bits, rest)
  {
    hide Coming, Delta, ToBits, BytesToBits, IsTail;
    ghost var good := 1 <= curr0 <= 20 && 1 <= want <= 20 && Coming(r.Unread(), Delta(curr0, want) + bits, rest);
    curr := curr0;
    while true
      invariant r.Valid() && |r.Unread()| <= |old(r.Unread())|
      invariant good ==> 1 <= curr <= 20 && Coming(r.Unread(), Delta(curr, want) + bits, rest)
      decreases |r.Unread()|
    {
      if curr < 1 || curr > 20 { return Bad, curr; }
      ghost var next := if curr < want then curr + 1 else curr - 1;
      ghost var tail := if curr == want then bits else [curr > want] + (Delta(next, want) + bits);
      if good {
        DeltaHead(curr, want, bits);
        NextBits(r.Unread(), [curr != want], tail, rest);
      }
      ghost var u := r.Unread();
      var ok, uc := GetBit(r);
      if !ok { return Hungry, curr; }
      assert good ==> uc == u[..1][0];
      if !uc { break; }
      if good { NextBits(r.Unread(), [curr > want], Delta(next, want) + bits, rest); }
      u := r.Unread();
      ok, uc := GetBit(r);
      if !ok { return Hungry, curr; }
      assert good ==> uc == u[..1][0];
      if !uc { curr := curr + 1; } else { curr := curr - 1; }
    }
    status := Good;
  }
}
