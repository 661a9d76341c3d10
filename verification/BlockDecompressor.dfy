/** One block on its way in: everything between its magic number and the first byte of its output. */
module BlockDecompressor {
  import opened Permutations
  import opened Rotations
  import opened InverseBwt
  import opened RunLength
  import opened BlockCrc
  import opened Bits
  import opened BitStream
  import opened Huffman
  import opened MoveToFront
  import opened BlockFormat
  import opened BlockReader
  import opened SelectorReader
  import opened SymbolReader
  import opened ColumnDecoder
  import opened RunLengthDecoder
  import opened StreamFormat
  import opened StreamReader
  import opened MtfEncoder
  import opened CopyScan
  import MtfSegments

  lemma CodingParts(k: Coding, nInUse: int, bits: seq<bool>)
    requires Codes(k, nInUse)
    ensures CodingBits(k, nInUse) + bits
         == MappingBits(k.inUse) + (SelectorBits(k.js, |k.tables|) + (TablesFrom(k.tables, nInUse + 2, 0)
            + (DataFrom(k.tables, nInUse + 2, Selected(k.js, |k.tables|), k.mtfv, 0) + bits)))
  {
    hide MappingBits, SelectorBits, TablesFrom, DataFrom, CodesFit;
  }

  ghost function DataOf(k: Coding, nInUse: int): seq<bool>
    requires Codes(k, nInUse)
  {
    DataFrom(k.tables, nInUse + 2, Selected(k.js, |k.tables|), k.mtfv, 0)
  }

  /** The mapping table of a coding comes next. */
  ghost predicate AlphabetComing(k: Coding, nInUse: int, unread: seq<bool>, bits: seq<bool>, rest: seq<bool>) {
    Codes(k, nInUse) && nInUse == |Used(k.inUse, 256)| && Coming(unread, MappingBits(k.inUse) + bits, rest)
  }

  /** Everything after the mapping table comes next. */
  ghost predicate PlanComing(k: Coding, nInUse: int, unread: seq<bool>, bits: seq<bool>, rest: seq<bool>) {
    && Codes(k, nInUse)
    && Coming(unread, SelectorBits(k.js, |k.tables|)
              + (TablesFrom(k.tables, nInUse + 2, 0) + (DataOf(k, nInUse) + bits)), rest)
  }

  lemma AlphabetParts(k: Coding, nInUse: int, unread: seq<bool>, bits: seq<bool>, rest: seq<bool>)
    requires AlphabetComing(k, nInUse, unread, bits, rest)
    ensures |k.inUse| == 256 && 1 <= nInUse <= 256 && nInUse == |Used(k.inUse, 256)|
    ensures Coming(unread, MappingBits(k.inUse) + bits, rest)
  {
    hide MappingBits, Coming, Used, IsTail;
  }

  lemma PlanParts(k: Coding, nInUse: int, unread: seq<bool>, bits: seq<bool>, rest: seq<bool>)
    requires PlanComing(k, nInUse, unread, bits, rest)
    ensures |k.inUse| == 256 && 2 <= |k.tables| <= BZ_N_GROUPS && 1 <= |k.js| <= BZ_MAX_SELECTORS
            && Indices(k.js, |k.tables|)
    ensures AllLengths(k.tables, nInUse + 2) && Naturals(k.js)
    ensures GoodData(k.tables, nInUse + 2, Selected(k.js, |k.tables|), k.mtfv)
    ensures forall t | 0 <= t < |k.tables| :: CodesFit(k.tables[t])
    ensures Coming(unread, SelectorBits(k.js, |k.tables|) + (TablesFrom(k.tables, nInUse + 2, 0)
              + (DataFrom(k.tables, nInUse + 2, Selected(k.js, |k.tables|), k.mtfv, 0) + bits)), rest)
  {
    hide CodesFit, Selected, SelectorBits, TablesFrom, DataFrom, Coming, IsTail;
  }

  /** The mapping table, and the bytes it numbers. */
  method ReadAlphabet(r: BitReader, inUse: array<bool>, seqToUnseq: array<Byte>, ghost k: Coding, ghost nInUse0: int,
                      ghost bits: seq<bool>, ghost rest: seq<bool>)
    returns (status: Status, nInUse: int)
    requires r.Valid() && inUse.Length == 256 == seqToUnseq.Length
    modifies r, inUse, seqToUnseq
    ensures r.Valid() && !status.Overrun? && (status.Good? <==> HasAlphabet(old(r.Unread())))
    ensures status.Good? ==> 1 <= nInUse <= 256 && |r.Unread()| <= |old(r.Unread())|
    ensures status.Good? ==> r.Unread() == old(r.Unread())[MappingSize(old(r.Unread()))..]
    ensures AlphabetComing(k, nInUse0, old(r.Unread()), bits, rest) ==>
              status.Good? && nInUse == nInUse0 && |k.inUse| == 256 && seqToUnseq[..nInUse] == Used(k.inUse, 256)
                  && Coming(r.Unread(), bits, rest)
  {
    hide MappingBits, Coming, Used, AlphabetComing, BitReader.Valid, Trues;
    nInUse := 0;
    ghost var good := AlphabetComing(k, nInUse0, r.Unread(), bits, rest);
    if good { AlphabetParts(k, nInUse0, r.Unread(), bits, rest); }
    var ok := ReadMapping(r, inUse, k.inUse, bits, rest);
    if !ok { return Hungry, 0; }
    nInUse := MakeMapsD(inUse, seqToUnseq);
    UsedSize(inUse[..]);
    if nInUse == 0 { return Bad, 0; }
    status := Good;
  }

  /** A mapping table comes that has some byte in use. */
  ghost predicate HasAlphabet(u: seq<bool>) {
    HasMapping(u) && true in u[16..MappingSize(u)]
  }

  lemma UsedSize(inUse: seq<bool>)
    requires |inUse| == 256
    ensures |Used(inUse, 256)| <= 256 && (|Used(inUse, 256)| > 0 <==> true in inUse)
  {
    if true in inUse {
      var c :| 0 <= c < 256 && inUse[c];
      UsedAt(inUse, c);
    }
    NoneUsed(inUse, 256);
  }

  lemma {:induction false} NoneUsed(inUse: seq<bool>, c: nat)
    requires |inUse| == 256 && c <= 256
    ensures |Used(inUse, c)| > 0 ==> true in inUse
  {
    if c > 0 { NoneUsed(inUse, c - 1); }
  }

  /** Selectors and tables; what follows are the data. */
  method ReadPlan(r: BitReader, nInUse: int, ghost k: Coding, ghost bits: seq<bool>, ghost rest: seq<bool>)
    returns (status: Status, src: SymbolSource)
    requires r.Valid() && 1 <= nInUse <= 256
    modifies r
    ensures r.Valid() && src.Valid() && fresh(src) && fresh(src.selector) && src.r == r && src.alphaSize == nInUse + 2
    ensures src.mtfv == k.mtfv && src.bits == bits && src.rest == rest
    ensures status.Overrun? <==> Overruns(old(r.Unread()))
    ensures status.Good? ==> |r.Unread()| <= |old(r.Unread())|
    ensures PlanComing(k, nInUse, old(r.Unread()), bits, rest) ==>
              status.Good? && src.At(0)
  {
    hide SelectorBits, TablesFrom, DataFrom, CodesFit, Coming, PlanComing, Selected, GoodData, AtSymbol, TableFor,
         AllLengths, BitReader.Valid, Overruns;
    ghost var good := PlanComing(k, nInUse, r.Unread(), bits, rest);
    if good { PlanParts(k, nInUse, r.Unread(), bits, rest); }
    var alphaSize := nInUse + 2;
    ghost var data := if good then DataFrom(k.tables, nInUse + 2, Selected(k.js, |k.tables|), k.mtfv, 0) + bits else [];
    ghost var tail := if good then TablesFrom(k.tables, alphaSize, 0) + data else [];
    var selector, selectorMtf := new int[BZ_MAX_SELECTORS], new int[BZ_MAX_SELECTORS];
    NoTables(alphaSize);
    src := new SymbolSource(r, [], selector, 0, [], alphaSize, k.mtfv, bits, rest);
    var nGroups, nSelectors;
    status, nGroups, nSelectors := ReadSelectors(r, selectorMtf, k.js, |k.tables|, tail, rest);
    if !status.Good? { return; }
    UndoSelectors(selectorMtf, selector, nSelectors, nGroups);
    var len;
    ghost var lens;
    status, len, lens := ReadLengths(r, nGroups, alphaSize, k.tables, data, rest);
    if !status.Good? { return; }
    var tables := BuildTables(len, alphaSize, lens);
    TablesCount(tables, lens, alphaSize);
    src := new SymbolSource(r, tables, selector, nSelectors, lens, alphaSize, k.mtfv, bits, rest);
  }

  lemma NoTables(alphaSize: int)
    ensures TablesFor([], [], alphaSize)
  {
  }

  lemma TablesCount(tables: seq<Table>, lens: seq<seq<int>>, alphaSize: int)
    requires TablesFor(tables, lens, alphaSize)
    ensures |tables| == |lens|
  {
    hide TableFor, AllLengths;
  }

  // ---- the data ----

  /** Numbering and mapping back cancel out. */
  lemma MappedBack(inUse: seq<bool>, unseq: seq<Byte>, col: seq<Byte>)
    requires |inUse| == 256 == |unseq| && unseq[..|Used(inUse, 256)|] == Used(inUse, 256)
    requires forall i | 0 <= i < |col| :: inUse[col[i]]
    ensures Mapped(unseq, Numbered(inUse, col)) == col
  {
    hide Used;
    var nums := Numbered(inUse, col);
    forall i | 0 <= i < |col| ensures unseq[nums[i]] == col[i] {
      NumberedBack(inUse, col, i);
      assert unseq[..|Used(inUse, 256)|][nums[i]] == unseq[nums[i]];
    }
  }

  /** The column of the block, into the array that the form in use keeps it in. */
  method ReadColumnInto(src: SymbolSource, d: DState, nInUse: int, seqToUnseq: array<Byte>, ghost nums: seq<Byte>)
    returns (status: Status, nblock: int, ghost column: seq<Byte>)
    requires src.Valid() && src.alphaSize == nInUse + 2 && 0 < nInUse <= 256 && seqToUnseq.Length == 256
    requires d.Allocated() && src.selector != d.tt && src.selector != d.ll16 && src.selector != d.unzftab
    requires seqToUnseq as object != d.tt && seqToUnseq as object != d.ll16 && seqToUnseq as object != d.unzftab
    modifies src, src.r, d.tt, d.ll16, d.unzftab
    ensures src.Valid() && seqToUnseq[..] == old(seqToUnseq[..]) && !status.Overrun?
    ensures status.Good? ==> |src.r.Unread()| <= |old(src.r.Unread())|
    ensures status.Good? ==> nblock == |column| && d.Received(column)
    ensures old(src.At(0)) && Sent(src.mtfv, nums, nInUse, 100000 * d.blockSize100k) ==>
              status.Good? && column == Mapped(seqToUnseq[..], nums) && Coming(src.r.Unread(), src.bits, src.rest)
  {
    hide Sent, AtSymbol, TablesFor, Coming, After, Output, IsTail;
    ghost var good := src.At(0) && Sent(src.mtfv, nums, nInUse, 100000 * d.blockSize100k);
    var target := if d.smallDecompress then d.ll16 else d.tt;
    ghost var syms;
    column := [];
    status, nblock, syms := ReadColumn(src, nInUse, seqToUnseq, target, d.unzftab, 100000 * d.blockSize100k, nums);
    if !status.Good? { return; }
    column := Mapped(seqToUnseq[..], Output(After(MtfSegments.Identity(), syms)));
    assert target[..nblock] == column;
    ReceivedColumn(d, target[..nblock], column);
  }

  lemma ReceivedColumn(d: DState, target: seq<int>, column: seq<Byte>)
    requires d.Allocated() && target == column && |column| <= 100000 * d.blockSize100k
    requires target == if d.smallDecompress then d.ll16[..|column|] else d.tt[..|column|]
    requires Tallied(d.unzftab[..], target)
    ensures d.Received(column)
  {
    forall c | 0 <= c < 256 ensures d.unzftab[c] == multiset(column)[c] {
      assert d.unzftab[..][c] == d.unzftab[c];
    }
    forall k | 0 <= k < |column| ensures column[k] == if d.smallDecompress then d.ll16[k] else d.tt[k] {
      assert target[k] == column[k];
    }
  }

  // ---- the whole block ----

  /** A block after its magic number. */
  ghost function BlockRest(s: Sealed): seq<bool>
    requires Codes(s.coding, s.nInUse) && s.origPtr >= 0
  {
    SumBits(BlockSum(s)) + ([false] + (ToBits(s.origPtr, 24) + CodingBits(s.coding, s.nInUse)))
  }

  lemma BlockParts(s: Sealed, bits: seq<bool>)
    requires Codes(s.coding, s.nInUse) && s.origPtr >= 0
    ensures BlockBits(s) + bits == BytesToBits(BLOCK_MAGIC) + (BlockRest(s) + bits)
  {
    hide BytesToBits, SumBits, ToBits, CodingBits, BlockSum, IsTail;
  }

  /** A sealed block comes next. */
  ghost predicate BlockComing(s: Sealed, level: int, unread: seq<bool>, bits: seq<bool>, rest: seq<bool>) {
    IsSealed(s, level) && Coming(unread, BlockRest(s) + bits, rest)
  }

  /** The decoder is about to put out exactly the input of the block. */
  ghost predicate BlockReady(d: DState, s: Sealed)
    reads d, d.tt, d.ll16, d.ll4, d.cftab
  {
    d.Valid() && d.Remaining() == s.input && !d.Truncated() && d.calculatedBlockCRC == INITIAL
  }

  /** Inverting the transform and expanding the runs gives the input of the block. */
  lemma BlockDecodes(s: Sealed, level: int)
    requires IsSealed(s, level)
    ensures GoodRuns(s.runs) && |BlockOf(s)| > 0 && IsPermutation(s.order, |BlockOf(s)|)
            && 0 <= s.origPtr < |BlockOf(s)|
    ensures var col := LastColumn(BlockOf(s), s.order);
      && Expanded(Feed(col, s.origPtr), |BlockOf(s)|, 0) == s.input
      && Lands(Feed(col, s.origPtr), |BlockOf(s)|, 0) == |BlockOf(s)|
  {
    hide IsRotationOrder, Codes, Used, IsMtfOf, Numbered, Expanded, Lands, Stored, Spelled, Separated, Walk;
    var b, o := BlockOf(s), s.origPtr;
    OrderFacts(b, s.order);
    var col := LastColumn(b, s.order);
    InverseReturnsBlock(b, s.order, Inverse(col), o);
    var feed := Feed(col, o);
    forall k | 0 <= k < |b| ensures feed[k] == b[k] {
      assert Decoded(col, Inverse(col), o, |b|)[k] == b[k];
    }
    assert feed[..|b|] == b;
    RunsReturn(feed, s.runs);
  }

  /** Checksum, randomisation bit and origin pointer. */
  method ReadFields(r: BitReader, blockSize100k: int, ghost s: Sealed, ghost bits: seq<bool>, ghost rest: seq<bool>)
    returns (status: Status, storedCRC: int, origPtr: int)
    requires r.Valid() && 1 <= blockSize100k <= 9
    modifies r
    ensures r.Valid() && !status.Overrun? && (status.Good? <==> HasFields(old(r.Unread()), blockSize100k))
    ensures status.Good? ==>
              0 <= origPtr <= 10 + 100000 * blockSize100k && r.Unread() == old(r.Unread())[FIELD_BITS..]
    ensures status.Good? ==> 0 <= storedCRC < WORD && ToBits(storedCRC, 32) <= old(r.Unread())
    ensures BlockComing(s, blockSize100k, old(r.Unread()), bits, rest) ==>
              status.Good? && storedCRC == BlockSum(s) as int && origPtr == s.origPtr
              && Codes(s.coding, s.nInUse) && Coming(r.Unread(), CodingBits(s.coding, s.nInUse) + bits, rest)
  {
    hide BlockComing, Coming, ToBits, BytesToBits, SumBits, BlockSum, CodingBits, Codes, Pow2, BitReader.Valid, Value,
         HasFields;
    ghost var good := BlockComing(s, blockSize100k, r.Unread(), bits, rest);
    if |r.Unread()| < FIELD_BITS { NoFields(r.Unread(), blockSize100k); }
    ghost var coding, pointer, flag := [], [], [];
    if good {
      FieldParts(s, blockSize100k, r.Unread(), bits, rest);
      coding := CodingBits(s.coding, s.nInUse) + bits;
      pointer := ToBits(s.origPtr, 24) + coding;
      flag := [false] + pointer;
    }
    storedCRC, origPtr := 0, 0;
    Powers();
    var ok;
    ghost var u0 := r.Unread();
    ok, storedCRC := GetBytes(r, 4, BlockSum(s) as int, flag, rest);
    if !ok { return Hungry, storedCRC, origPtr; }
    ComingFirst(u0, ToBits(storedCRC, 32), r.Unread());
    if good { NextBits(r.Unread(), [false], pointer, rest); }
    ghost var u := r.Unread();
    var randomised;
    ok, randomised := GetBit(r);
    if !ok { return Hungry, storedCRC, origPtr; }
    assert good ==> randomised == u[..1][0];
    FlagIs(u0, ToBits(storedCRC, 32), u, blockSize100k);
    ghost var u2 := r.Unread();
    if randomised { return Bad, storedCRC, origPtr; }   // blocks randomised by old versions are not part of the model
    ok, origPtr := GetBytes(r, 3, if good then s.origPtr else 0, coding, rest);
    if !ok { return Hungry, storedCRC, origPtr; }
    FieldsAre(u0, ToBits(storedCRC, 32), u, u2, origPtr, r.Unread(), blockSize100k);
    if origPtr < 0 { return Bad, storedCRC, origPtr; }
    if origPtr > 10 + 100000 * blockSize100k { return Bad, storedCRC, origPtr; }
    status := Good;
  }

  const FIELD_BITS := 57

  /** Checksum, a clear bit for randomisation, and an origin pointer in range come next. */
  ghost predicate HasFields(u: seq<bool>, level: int) {
    |u| >= FIELD_BITS && !u[32] && Value(u[33..57]) <= 10 + 100000 * level
  }

  lemma NoFields(u: seq<bool>, level: int)
    requires |u| < FIELD_BITS
    ensures !HasFields(u, level)
  {
  }

  lemma FlagIs(u0: seq<bool>, sum: seq<bool>, u: seq<bool>, level: int)
    requires Coming(u0, sum, u) && |sum| == 32 && |u| >= 1
    ensures u[0] ==> !HasFields(u0, level)
  {
    assert u0[32] == u[0];
  }

  lemma FieldsAre(u0: seq<bool>, sum: seq<bool>, u: seq<bool>, u2: seq<bool>, v: nat, u3: seq<bool>, level: int)
    requires Coming(u0, sum, u) && |sum| == 32 && |u| >= 1 && u2 == u[1..] && !u[0]
    requires v < Pow2(24) && Coming(u2, ToBits(v, 24), u3)
    ensures |u0| >= FIELD_BITS && u3 == u0[FIELD_BITS..]
    ensures HasFields(u0, level) <==> v <= 10 + 100000 * level
  {
    hide Pow2, ToBits, Value;
    ValueToBits(v, 24);
    assert u0[32] == u[0];
    assert u0[33..57] == ToBits(v, 24);
  }

  lemma ComingFirst(u: seq<bool>, chunk: seq<bool>, rest: seq<bool>)
    requires Coming(u, chunk, rest)
    ensures chunk <= u
  {
  }

  lemma FieldParts(s: Sealed, level: int, unread: seq<bool>, bits: seq<bool>, rest: seq<bool>)
    requires BlockComing(s, level, unread, bits, rest) && 1 <= level <= 9
    ensures Codes(s.coding, s.nInUse) && 0 <= s.origPtr < 100000 * level && s.origPtr < Pow2(24)
            && (BlockSum(s) as int) < Pow2(32)
    ensures Coming(unread, ToBits(BlockSum(s) as int, 32)
                   + ([false] + (ToBits(s.origPtr, 24) + (CodingBits(s.coding, s.nInUse) + bits))), rest)
  {
    hide CodingBits, ToBits, Coming, Codes, Used, IsMtfOf, Numbered, LastColumn, BlockSum, Spelled, Separated, Stored,
         Pow2, IsTail;
    Powers();
    SealedCodes(s, level);
    OrderFacts(BlockOf(s), s.order);
    assert BlockRest(s) + bits == SumBits(BlockSum(s))
           + ([false] + (ToBits(s.origPtr, 24) + (CodingBits(s.coding, s.nInUse) + bits)));
  }

  /** From the mapping table to the received column. */
  method ReadCoded(r: BitReader, d: DState, ghost s: Sealed, ghost bits: seq<bool>, ghost rest: seq<bool>)
    returns (status: Status, nblock: int, ghost column: seq<Byte>)
    requires r.Valid() && d.Allocated()
    modifies r, d.tt, d.ll16, d.unzftab
    ensures r.Valid() && (status.Overrun? <==> CodedOverruns(old(r.Unread())))
    ensures status.Good? ==> nblock == |column| && d.Received(column) && |r.Unread()| <= |old(r.Unread())|
    ensures IsSealed(s, d.blockSize100k) && CodedComing(s, old(r.Unread()), bits, rest) ==>
              status.Good? && Coming(r.Unread(), bits, rest)
              && IsPermutation(s.order, |BlockOf(s)|) && column == LastColumn(BlockOf(s), s.order)
  {
    hide IsSealed, CodedComing, Coming, Sent, AlphabetComing, PlanComing, BlockOf, LastColumn, IsPermutation, Numbered,
         Used, BitReader.Valid, Overruns, HasAlphabet, Trues;
    ghost var good := IsSealed(s, d.blockSize100k) && CodedComing(s, r.Unread(), bits, rest);
    ghost var k := s.coding;
    ghost var plan, nums := [], [];
    if good {
      plan := CodedPlan(s, r.Unread(), bits, rest);
      nums := SealedNumbers(s, d.blockSize100k);
    }
    nblock, column := 0, [];
    var inUse, seqToUnseq := new bool[256], new Byte[256];
    var nInUse;
    status, nInUse := ReadAlphabet(r, inUse, seqToUnseq, k, s.nInUse, plan, rest);
    if !status.Good? { return; }
    var src;
    if good { PlanFollows(s, r.Unread(), plan, bits, rest); }
    status, src := ReadPlan(r, nInUse, k, bits, rest);
    if !status.Good? { return; }
    status, nblock, column := ReadColumnInto(src, d, nInUse, seqToUnseq, nums);
    if good { SealedColumn(s, d.blockSize100k, seqToUnseq[..], nums); }
  }

  /** After the mapping table come selectors that leave their arrays. */
  ghost predicate CodedOverruns(u: seq<bool>) {
    HasAlphabet(u) && Overruns(u[MappingSize(u)..])
  }

  /** So they do in the block whose bits after the magic number are these. */
  ghost predicate BlockOverruns(u: seq<bool>, level: int) {
    HasFields(u, level) && CodedOverruns(u[FIELD_BITS..])
  }

  /** The coding of a sealed block comes next. */
  ghost predicate CodedComing(s: Sealed, unread: seq<bool>, bits: seq<bool>, rest: seq<bool>) {
    && Codes(s.coding, s.nInUse) && s.nInUse == |Used(s.coding.inUse, 256)|
    && Coming(unread, CodingBits(s.coding, s.nInUse) + bits, rest)
  }

  ghost predicate IsPlan(s: Sealed, plan: seq<bool>, bits: seq<bool>) {
    Codes(s.coding, s.nInUse)
    && plan == SelectorBits(s.coding.js, |s.coding.tables|)
        + (TablesFrom(s.coding.tables, s.nInUse + 2, 0) + (DataOf(s.coding, s.nInUse) + bits))
  }

  lemma CodedPlan(s: Sealed, unread: seq<bool>, bits: seq<bool>, rest: seq<bool>) returns (plan: seq<bool>)
    requires CodedComing(s, unread, bits, rest)
    ensures IsPlan(s, plan, bits) && AlphabetComing(s.coding, s.nInUse, unread, plan, rest)
  {
    hide MappingBits, SelectorBits, TablesFrom, DataFrom, CodingBits, Coming, CodesFit, IsTail;
    CodingParts(s.coding, s.nInUse, bits);
    plan := SelectorBits(s.coding.js, |s.coding.tables|)
        + (TablesFrom(s.coding.tables, s.nInUse + 2, 0) + (DataOf(s.coding, s.nInUse) + bits));
  }

  lemma PlanFollows(s: Sealed, unread: seq<bool>, plan: seq<bool>, bits: seq<bool>, rest: seq<bool>)
    requires IsPlan(s, plan, bits) && Coming(unread, plan, rest)
    ensures PlanComing(s.coding, s.nInUse, unread, bits, rest)
  {
    hide SelectorBits, TablesFrom, DataFrom, Coming, CodesFit, IsTail;
  }

  lemma SealedNumbers(s: Sealed, level: int) returns (nums: seq<Byte>)
    requires IsSealed(s, level)
    ensures GoodRuns(s.runs) && |BlockOf(s)| > 0 && IsPermutation(s.order, |BlockOf(s)|) && |s.coding.inUse| == 256
    ensures nums == Numbered(s.coding.inUse, LastColumn(BlockOf(s), s.order))
            && Sent(s.coding.mtfv, nums, s.nInUse, 100000 * level)
  {
    hide Codes, Used, IsMtfOf, NumberOf, Spelled, Separated, Stored;
    OrderFacts(BlockOf(s), s.order);
    CodesSizes(s.coding, s.nInUse);
    nums := Numbered(s.coding.inUse, LastColumn(BlockOf(s), s.order));
  }

  lemma CodesSizes(k: Coding, nInUse: int)
    requires Codes(k, nInUse)
    ensures |k.inUse| == 256 && 1 <= nInUse <= 256
  {
  }

  lemma SealedColumn(s: Sealed, level: int, unseq: seq<Byte>, nums: seq<Byte>)
    requires IsSealed(s, level) && |unseq| == 256 && |s.coding.inUse| == 256 && |BlockOf(s)| > 0
             && IsPermutation(s.order, |BlockOf(s)|)
    requires s.nInUse == |Used(s.coding.inUse, 256)| && unseq[..s.nInUse] == Used(s.coding.inUse, 256)
    requires nums == Numbered(s.coding.inUse, LastColumn(BlockOf(s), s.order))
    ensures Mapped(unseq, nums) == LastColumn(BlockOf(s), s.order)
  {
    hide Codes, Used, IsMtfOf, Numbered, Spelled, Separated, Stored;
    var b := BlockOf(s);
    var col := LastColumn(b, s.order);
    forall i | 0 <= i < |col| ensures s.coding.inUse[col[i]] {
      SuccPred(s.order[i], |b|);
      assert col[i] == b[Pred(s.order[i], |b|)];
    }
    MappedBack(s.coding.inUse, unseq, col);
  }

  /** BZ2_decompress from behind the magic number of a block to the start of its output. */
  method ReadBlock(r: BitReader, d: DState, ghost s: Sealed, ghost bits: seq<bool>, ghost rest: seq<bool>)
    returns (status: Status, storedCRC: int)
    requires r.Valid() && d.Allocated() && d.availOut >= 0
    modifies r, d, d.tt, d.ll16, d.ll4, d.cftab, d.cftabCopy, d.unzftab
    ensures r.Valid() && d.Allocated() && d.nextOut == old(d.nextOut) && d.availOut == old(d.availOut)
    ensures status.Overrun? <==> BlockOverruns(old(r.Unread()), d.blockSize100k)
    ensures status.Good? ==> |r.Unread()| + 32 <= |old(r.Unread())|
    ensures status.Good? ==> d.Valid() && d.calculatedBlockCRC == INITIAL && d.nblockUsed == 1
    ensures status.Good? ==> 0 <= storedCRC < WORD && ToBits(storedCRC, 32) <= old(r.Unread())
    ensures BlockComing(s, d.blockSize100k, old(r.Unread()), bits, rest) ==>
              status.Good? && storedCRC == BlockSum(s) as int && Coming(r.Unread(), bits, rest) && BlockReady(d, s)
  {
    hide BlockComing, Coming, BlockSum, IsSealed, BlockOf, LastColumn, IsPermutation, Expanded, Lands, Codes,
         CodingBits, CodedComing, Feed, BitReader.Valid, CodedOverruns, Value;
    ghost var good := BlockComing(s, d.blockSize100k, r.Unread(), bits, rest);
    if good { ComingSealed(s, d.blockSize100k, r.Unread(), bits, rest); }
    var origPtr;
    status, storedCRC, origPtr := ReadFields(r, d.blockSize100k, s, bits, rest);
    if !status.Good? { return; }
    if good { CodedFollows(s, d.blockSize100k, r.Unread(), bits, rest); }
    var nblock;
    ghost var column;
    status, nblock, column := ReadCoded(r, d, s, bits, rest);
    if !status.Good? { return; }
    if good { BlockDecodes(s, d.blockSize100k); }
    var dataError := d.StartOutput(nblock, origPtr, column);
    if dataError { return Bad, storedCRC; }
  }

  lemma ComingSealed(s: Sealed, level: int, unread: seq<bool>, bits: seq<bool>, rest: seq<bool>)
    requires BlockComing(s, level, unread, bits, rest)
    ensures IsSealed(s, level)
  {
    hide IsSealed;
  }

  lemma CodedFollows(s: Sealed, level: int, unread: seq<bool>, bits: seq<bool>, rest: seq<bool>)
    requires Codes(s.coding, s.nInUse) && Coming(unread, CodingBits(s.coding, s.nInUse) + bits, rest)
    requires IsSealed(s, level)
    ensures CodedComing(s, unread, bits, rest)
  {
    hide Codes, CodingBits, Coming, Used, IsTail;
  }
}
