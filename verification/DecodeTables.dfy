/** What inflate's decoding tables mean: a root table indexed by the next bits of the stream, whose
    entries either decode a symbol or point to a sub-table indexed by the bits that follow. */
module DecodeTables {
  import opened Bits
  import opened BitFields
  import opened CanonicalCodes

  datatype Kind = CODES | LENS | DISTS

  /** A table entry. */
  datatype Code = Code(op: nat, bits: nat, val: nat)

  const INVALID := Code(64, 1, 0)

  const LENGTH_BASE: seq<nat> := [3, 4, 5, 6, 7, 8, 9, 10, 11, 13, 15, 17, 19, 23, 27, 31,
                                  35, 43, 51, 59, 67, 83, 99, 115, 131, 163, 195, 227, 258, 0, 0]
  const LENGTH_OP: seq<nat> := [16, 16, 16, 16, 16, 16, 16, 16, 17, 17, 17, 17, 18, 18, 18, 18,
                                19, 19, 19, 19, 20, 20, 20, 20, 21, 21, 21, 21, 16, 78, 68]
  const DIST_BASE: seq<nat> := [1, 2, 3, 4, 5, 7, 9, 13, 17, 25, 33, 49, 65, 97, 129, 193,
                                257, 385, 513, 769, 1025, 1537, 2049, 3073, 4097, 6145,
                                8193, 12289, 16385, 24577, 0, 0]
  const DIST_OP: seq<nat> := [16, 16, 16, 16, 17, 17, 18, 18, 19, 19, 20, 20, 21, 21, 22, 22,
                              23, 23, 24, 24, 25, 25, 26, 26, 27, 27, 28, 28, 29, 29, 64, 64]

  /** The symbols a code of each kind may have. */
  function MaxSymbols(kind: Kind): nat {
    match kind
    case CODES => 19
    case LENS => 288
    case DISTS => 32
  }

  /** Above this symbol, base values and extra bits apply; the symbol itself ends the block. */
  function EndSymbol(kind: Kind): int {
    match kind
    case CODES => 19
    case LENS => 256
    case DISTS => -1
  }

  /** The operation and the value of a symbol's entry. */
  function Meaning(kind: Kind, sym: nat): (nat, nat)
    requires sym < MaxSymbols(kind)
  {
    if sym < EndSymbol(kind) then (0, sym)
    else if sym > EndSymbol(kind) then
      if kind.LENS? then (LENGTH_OP[sym - 257], LENGTH_BASE[sym - 257]) else (DIST_OP[sym], DIST_BASE[sym])
    else (32 + 64, 0)
  }

  /** Entries that decode something are never mistaken for links. */
  lemma MeaningIsNoLink(kind: Kind, sym: nat)
    requires sym < MaxSymbols(kind)
    ensures Meaning(kind, sym).0 == 0 || 16 <= Meaning(kind, sym).0 < 256
    ensures kind.DISTS? ==> Meaning(kind, sym).0 != 0
  {
    match kind
    case CODES =>
    case LENS =>
      hide Meaning;
      LengthMeaning(sym);
    case DISTS =>
      hide Meaning;
      DistanceMeaning(sym);
  }

  lemma DistanceMeaning(sym: nat)
    requires sym < MaxSymbols(DISTS)
    ensures var m := Meaning(DISTS, sym); m.0 == 64 || (16 <= m.0 <= 29 && 1 <= m.1)
    ensures Meaning(DISTS, sym).0 < 64 ==> sym < 30
  {
    assert forall j | 0 <= j < 30 :: 16 <= DIST_OP[j] <= 29 && 1 <= DIST_BASE[j];
    assert DIST_OP[30] == DIST_OP[31] == 64;
  }

  lemma LengthMeaning(sym: nat)
    requires sym < MaxSymbols(LENS)
    ensures var m := Meaning(LENS, sym);
            (m.0 == 0 && m.1 < 256) || m.0 == 96 || m.0 == 78 || m.0 == 68 || (16 <= m.0 <= 21 && 3 <= m.1)
  {
    assert forall j | 0 <= j < 29 :: 16 <= LENGTH_OP[j] <= 21 && 3 <= LENGTH_BASE[j];
    assert LENGTH_OP[29] == 78 && LENGTH_OP[30] == 68;
  }

  /** The bases and extra bits leave no gaps: one code's lengths end where the next one's begin... */
  lemma LengthsTile(k: nat)
    requires k < 28
    ensures LENGTH_BASE[k] + Pow2(LENGTH_OP[k] - 16) == if k < 27 then LENGTH_BASE[k + 1] else 259
  {
    hide Pow2;
    Powers();
    assert forall j | 0 <= j < 28 :: 16 <= LENGTH_OP[j] <= 21;
    if k < 8 {
    } else if k < 16 {
    } else if k < 24 {
    } else {
    }
  }

  /** ... and so do its distances. */
  lemma DistancesTile(k: nat)
    requires k < 30
    ensures DIST_BASE[k] + Pow2(DIST_OP[k] - 16) == if k < 29 then DIST_BASE[k + 1] else 32769
  {
    hide Pow2;
    Powers();
    assert forall j | 0 <= j < 30 :: 16 <= DIST_OP[j] <= 29;
    if k < 8 {
    } else if k < 16 {
    } else if k < 24 {
    } else {
    }
  }

  // ---- the same, as section 3.2.5 of RFC 1951 has it ----

  /** The extra bits of length code 257 + k, and the length they give. */
  function LengthBits(k: nat): nat {
    if k < 4 || k >= 28 then 0 else k / 4 - 1
  }

  function LengthValue(k: nat, extra: nat): nat {
    if k < 4 then 3 + k else if k == 28 then 258 else 3 + (4 + k % 4) * Pow2(LengthBits(k)) + extra
  }

  /** The extra bits of distance code k, and the distance they give. */
  function DistanceBits(k: nat): nat {
    if k < 2 then 0 else k / 2 - 1
  }

  function DistanceValue(k: nat, extra: nat): nat {
    if k < 2 then 1 + k else 1 + (2 + k % 2) * Pow2(DistanceBits(k)) + extra
  }

  lemma LengthForm(k: nat)
    requires k < 29
    ensures LENGTH_OP[k] == 16 + LengthBits(k) && LENGTH_BASE[k] == LengthValue(k, 0)
  {
    hide Pow2;
    Powers();
    if k < 8 {
    } else if k < 16 {
    } else if k < 24 {
    } else {
    }
  }

  lemma DistanceForm(k: nat)
    requires k < 30
    ensures DIST_OP[k] == 16 + DistanceBits(k) && DIST_BASE[k] == DistanceValue(k, 0)
  {
    hide Pow2;
    Powers();
    if k < 8 {
    } else if k < 16 {
    } else if k < 24 {
    } else {
    }
  }

  lemma Powers()
    ensures Pow2(0) == 1 && Pow2(1) == 2 && Pow2(2) == 4 && Pow2(3) == 8 && Pow2(4) == 16 && Pow2(5) == 32
            && Pow2(6) == 64
    ensures Pow2(7) == 128 && Pow2(8) == 256 && Pow2(9) == 512 && Pow2(10) == 1024 && Pow2(11) == 2048
            && Pow2(12) == 4096
    ensures Pow2(13) == 8192
  {
    assert Pow2(7) == 128 && Pow2(6) == 64;
    Pow2Step(7);
    Pow2Step(8);
    Pow2Step(9);
    Pow2Step(10);
    Pow2Step(11);
    Pow2Step(12);
  }

  // ---- looking a code up ----

  predicate IsLink(e: Code) { 0 < e.op < 16 }

  /** The entry that the stream selects: in the root table, or in the sub-table linked from there. */
  function Slot(tab: seq<Code>, root: nat, hold: nat): nat
    requires Pow2(root) <= |tab|
  {
    var e := tab[Low(hold, root)];
    if IsLink(e) then e.val + After(hold, e.bits, e.op) else Low(hold, root)
  }

  /** What is decoded, and how many bits of the stream it takes. */
  datatype Token = Token(op: nat, val: nat, used: nat)

  function Fetch(tab: seq<Code>, root: nat, hold: nat): Token
    requires Pow2(root) <= |tab| && Slot(tab, root, hold) < |tab|
  {
    var e, here := tab[Low(hold, root)], tab[Slot(tab, root, hold)];
    Token(here.op, here.val, (if IsLink(e) then e.bits else 0) + here.bits)
  }

  /** A link takes all the bits that index the root table. */
  ghost predicate LinksWhole(tab: seq<Code>, root: nat, hold: nat)
    requires Pow2(root) <= |tab|
  {
    IsLink(tab[Low(hold, root)]) ==> tab[Low(hold, root)].bits == root
  }

  /** The stream decodes to symbol s, and the code of s is what it takes. */
  ghost predicate Decodes(tab: seq<Code>, root: nat, kind: Kind, lens: seq<int>, s: int, hold: nat)
    requires Pow2(root) <= |tab| && 0 <= s < |lens| <= MaxSymbols(kind) && lens[s] >= 0
  {
    && Slot(tab, root, hold) < |tab| && !IsLink(tab[Slot(tab, root, hold)]) && LinksWhole(tab, root, hold)
    && Fetch(tab, root, hold) == Token(Meaning(kind, s).0, Meaning(kind, s).1, lens[s])
  }

  ghost predicate Refuses(tab: seq<Code>, root: nat, hold: nat)
    requires Pow2(root) <= |tab|
  {
    && Slot(tab, root, hold) < |tab| && LinksWhole(tab, root, hold)
    && Fetch(tab, root, hold) == Token(INVALID.op, INVALID.val, INVALID.bits)
  }

  /** The tables decode the canonical code with these lengths: whatever begins with the code of a
      symbol decodes to that symbol, and whatever begins with no code at all is refused. */
  ghost predicate IsDecoder(tab: seq<Code>, root: nat, kind: Kind, lens: seq<int>) {
    && 1 <= root <= MAXBITS && Pow2(root) <= |tab| && |lens| <= MaxSymbols(kind)
    && (forall s, hold: nat | Starts(lens, s, hold) :: Decodes(tab, root, kind, lens, s, hold))
    && (forall hold: nat | !HasCode(lens, hold) :: Refuses(tab, root, hold))
  }

  // ---- the space that the tables take ----

  const ENOUGH_LENS := 852
  const ENOUGH_DISTS := 592

  ghost function Longest(lens: seq<int>): nat {
    if lens == [] then 0 else
      var l := Longest(lens[..|lens| - 1]);
      if lens[|lens| - 1] > l then lens[|lens| - 1] else l
  }

  /** The shortest length that occurs, or 0. */
  ghost function Shortest(lens: seq<int>): nat {
    if lens == [] then 0 else
      var l, x := Shortest(lens[..|lens| - 1]), lens[|lens| - 1];
      if x > 0 && (l == 0 || x < l) then x else l
  }

  lemma {:induction false} LongestIs(lens: seq<int>, m: nat)
    requires forall s | 0 <= s < |lens| :: lens[s] <= m
    requires m == 0 || m in lens
    ensures Longest(lens) == m
  {
    if lens != [] {
      var front, x := lens[..|lens| - 1], lens[|lens| - 1];
      assert lens == front + [x];
      LongestBound(front, m);
      if m == 0 || m in front { LongestIs(front, m); }
    }
  }

  lemma {:induction false} LongestBound(lens: seq<int>, m: nat)
    requires forall s | 0 <= s < |lens| :: lens[s] <= m
    ensures Longest(lens) <= m
  {
    if lens != [] { LongestBound(lens[..|lens| - 1], m); }
  }

  lemma {:induction false} ShortestBound(lens: seq<int>, m: nat)
    requires m > 0 && forall s | 0 <= s < |lens| :: lens[s] > 0 ==> lens[s] >= m
    ensures Shortest(lens) == 0 || Shortest(lens) >= m
  {
    if lens != [] { ShortestBound(lens[..|lens| - 1], m); }
  }

  lemma {:induction false} ShortestIs(lens: seq<int>, m: nat)
    requires m > 0 && m in lens && forall s | 0 <= s < |lens| :: lens[s] > 0 ==> lens[s] >= m
    ensures Shortest(lens) == m
  {
    var front, x := lens[..|lens| - 1], lens[|lens| - 1];
    assert lens == front + [x];
    ShortestBound(front, m);
    if m in front { ShortestIs(front, m); }
  }

  lemma {:induction false} ShortestAtMost(lens: seq<int>, m: nat)
    requires forall s | 0 <= s < |lens| :: lens[s] <= m
    ensures Shortest(lens) <= m
  {
    if lens != [] { ShortestAtMost(lens[..|lens| - 1], m); }
  }

  /** The index bits of the root table: as requested, but within the lengths that occur. */
  ghost function RootBits(lens: seq<int>, bits: nat): (r: nat)
    requires Lengths(lens)
    ensures r <= MAXBITS
  {
    LongestBound(lens, MAXBITS);
    ShortestAtMost(lens, MAXBITS);
    var r := if bits > Longest(lens) then Longest(lens) else bits;
    if r < Shortest(lens) then Shortest(lens) else r
  }

  /** Which entry of the root table, counting in the order of the codes, the code of s falls under. */
  ghost function Block(lens: seq<int>, root: nat, s: int): nat
    requires root <= MAXBITS && 0 <= s < |lens| && 0 < lens[s] <= MAXBITS
  {
    High(FirstLeaf(lens, s), MAXBITS - root)
  }

  /** The bits beyond the root of the longest of the first n symbols under entry b. */
  ghost function BlockBits(lens: seq<int>, root: nat, b: nat, n: nat): (r: nat)
    requires root <= MAXBITS && n <= |lens|
  {
    if n == 0 then 0 else
      var r := BlockBits(lens, root, b, n - 1);
      if root + r < lens[n - 1] <= MAXBITS && Block(lens, root, n - 1) == b then lens[n - 1] - root else r
  }

  /** The space for the sub-tables under the first b entries: each just large enough for its longest code. */
  ghost function SubTables(lens: seq<int>, root: nat, b: nat): nat
    requires root <= MAXBITS
  {
    if b == 0 then 0 else
      var r := BlockBits(lens, root, b - 1, |lens|);
      SubTables(lens, root, b - 1) + if r == 0 then 0 else Pow2(r)
  }

  ghost function TableSize(lens: seq<int>, root: nat): nat
    requires root <= MAXBITS
  {
    Pow2(root) + SubTables(lens, root, Pow2(root))
  }

  function Enough(kind: Kind): nat {
    if kind.LENS? then ENOUGH_LENS else ENOUGH_DISTS
  }

  /** What inflate_table returns: -1 for a set of lengths that is no code, 1 when the tables would
      fill ENOUGH entries, and otherwise 0. The one incomplete code allowed has a single length-1 symbol. */
  ghost function Verdict(kind: Kind, lens: seq<int>, bits: nat): int
    requires Lengths(lens)
  {
    if Longest(lens) == 0 then 0
    else if Demand(lens) > Pow2(MAXBITS) then -1
    else if Demand(lens) < Pow2(MAXBITS) && (kind.CODES? || Longest(lens) != 1) then -1
    else if !kind.CODES? && TableSize(lens, RootBits(lens, bits)) >= Enough(kind) then 1
    else 0
  }
}
