/** The invariant of inflate_table's main loop: which codes the tables decode, and how much space they take. */
module TableGrowth {
  import opened Bits
  import opened BitFields
  import opened CanonicalCodes
  import opened ReversedBits
  import opened DecodeTables
  import opened TableFilling
  import opened TableSizing

  /** Lengths for which inflate_table builds tables: a complete code, or a single code of one bit. */
  ghost predicate Usable(lens: seq<int>) {
    Lengths(lens) && NotOversubscribed(lens) && (Taken(lens, MAXBITS) == Pow2(MAXBITS) || Longest(lens) == 1)
  }

  /** i codes have been entered; the current table, which used entries end with, is the one for s. */
  ghost predicate Growing(tab: seq<Code>, kind: Kind, lens: seq<int>, root: nat, i: int, s: int,
                          drop: nat, low: int, curr: nat, next: nat, used: nat) {
    && IsSymbol(lens, s) && 1 <= root <= MAXBITS && lens[s] <= MAXBITS
    && used == next + Pow2(curr) <= |tab|
    && if lens[s] <= root then
         drop == 0 && low == -1 && curr == root && next == 0 && Direct(tab, kind, lens, root, i)
       else
         && drop == root && low == Low(HuffOf(lens, s), root)
         && Linked(tab, kind, lens, root, i, low, curr, next)
         && curr == BlockBits(lens, root, Block(lens, root, s), |lens|)
         && used == Pow2(root) + SubTables(lens, root, Block(lens, root, s) + 1)
  }

  lemma StartGrowing(tab: seq<Code>, kind: Kind, lens: seq<int>, root: nat, s: int)
    requires Lengths(lens) && IsSymbol(lens, s) && lens[s] <= root <= MAXBITS && Pow2(root) <= |tab|
             && |lens| <= MaxSymbols(kind)
    ensures Growing(tab, kind, lens, root, 0, s, 0, -1, root, 0, Pow2(root))
  {
    hide Rank, Pow2, Meaning;
    forall t | IsSymbol(lens, t) ensures Rank(lens, t) >= 0 { RankInRange(lens, t); }
  }

  /** What is entered for a symbol. */
  function Entry(kind: Kind, s: nat, len: nat, drop: nat): Code
    requires s < MaxSymbols(kind) && drop <= len
  {
    Code(Meaning(kind, s).0, len - drop, Meaning(kind, s).1)
  }

  lemma EnterCode(tab: seq<Code>, kind: Kind, lens: seq<int>, root: nat, s: int,
                  drop: nat, low: int, curr: nat, next: nat, used: nat, tab': seq<Code>)
    requires Usable(lens) && IsSymbol(lens, s)
             && Growing(tab, kind, lens, root, Rank(lens, s), s, drop, low, curr, next, used)
    requires |lens| <= MaxSymbols(kind) && drop <= lens[s]
    requires tab' == Painted(tab, next, High(HuffOf(lens, s), drop), lens[s] - drop, Pow2(curr),
                             Entry(kind, s, lens[s], drop))
    ensures Growing(tab', kind, lens, root, Rank(lens, s) + 1, s, drop, low, curr, next, used)
  {
    hide Rank, Pow2, Meaning, HuffOf, Low, High, Block, BlockBits, SubTables, Painted, Direct, Linked;
    if lens[s] <= root {
      HighOfNone(HuffOf(lens, s));
      PaintRoot(tab, kind, lens, root, Rank(lens, s), s, tab');
    } else {
      LinkedWithin(tab, kind, lens, root, Rank(lens, s), low, curr, next);
      FitsUnder(lens, root, s);
      PaintSubTable(tab, kind, lens, root, Rank(lens, s), low, curr, next, s, tab');
    }
  }

  lemma LinkedWithin(tab: seq<Code>, kind: Kind, lens: seq<int>, root: nat, i: int, low: nat, curr: nat, next: nat)
    requires Linked(tab, kind, lens, root, i, low, curr, next)
    ensures Pow2(root) <= next && next + Pow2(curr) <= |tab| && |lens| <= MaxSymbols(kind)
  {
  }

  lemma HighOfNone(x: nat)
    ensures High(x, 0) == x
  {
    Pow2Of1();
  }

  /** The sub-table under an entry has room for every code there. */
  lemma FitsUnder(lens: seq<int>, root: nat, s: int)
    requires Lengths(lens) && IsSymbol(lens, s) && root < lens[s]
    ensures lens[s] <= root + BlockBits(lens, root, Block(lens, root, s), |lens|)
  {
    hide Block, BlockBits;
    BlockBitsBound(lens, root, Block(lens, root, s), |lens|, s);
  }

  /** The code that follows, as the stream shows it: the backwards increment, whatever its length. */
  lemma NextHuff(lens: seq<int>, s: int, t: int)
    requires Lengths(lens) && NotOversubscribed(lens) && IsSymbol(lens, s) && IsSymbol(lens, t)
    requires Rank(lens, t) == Rank(lens, s) + 1
    ensures CodeOf(lens, s) + 1 < Pow2(lens[s]) && Reverse(CodeOf(lens, s) + 1, lens[s]) == HuffOf(lens, t)
  {
    hide Rank, Pow2, CodeOf, Reverse;
    NextLeaf(lens, s, t);
    CodeFits(lens, t);
    var l, m, c := lens[s], lens[t], CodeOf(lens, s) + 1;
    Pow2Add(m - l, MAXBITS - m);
    AddOne(CodeOf(lens, s), Pow2(MAXBITS - l));
    Associates(c, Pow2(m - l), Pow2(MAXBITS - m));
    CancelEqual(CodeOf(lens, t), c * Pow2(m - l), Pow2(MAXBITS - m));
    ReverseShift(c, l, m - l);
    Pow2Add(l, m - l);
    CancelLess(c, Pow2(l), Pow2(m - l));
  }

  lemma CancelEqual(a: nat, b: nat, p: nat)
    requires p > 0 && a * p == b * p
    ensures a == b
  {
    if a < b { NextMultiple(a, b, p); }
    if b < a { NextMultiple(b, a, p); }
  }

  lemma CancelLess(a: nat, b: nat, p: nat)
    requires a * p < b * p
    ensures a < b
  {
    if a > b { NextMultiple(b, a, p); }
  }

  /** The next code belongs to the current table. */
  lemma SameTable(tab: seq<Code>, kind: Kind, lens: seq<int>, root: nat, i: int, s: int, t: int,
                  drop: nat, low: int, curr: nat, next: nat, used: nat)
    requires Usable(lens) && Growing(tab, kind, lens, root, i, s, drop, low, curr, next, used)
    requires IsSymbol(lens, t) && lens[s] <= lens[t] && (lens[t] <= root || Low(HuffOf(lens, t), root) == low)
    ensures Growing(tab, kind, lens, root, i, t, drop, low, curr, next, used)
  {
    hide Rank, Pow2, HuffOf, Low, Block, BlockBits, SubTables, Direct, Linked;
    if lens[t] > root {
      LowIsBlock(lens, root, s);
      LowIsBlock(lens, root, t);
    }
  }

  /** The space needed once the sub-table for t is added. */
  lemma NewSpace(tab: seq<Code>, kind: Kind, lens: seq<int>, root: nat, s: int, t: int,
                 drop: nat, low: int, curr: nat, next: nat, used: nat)
    requires Usable(lens) && IsSymbol(lens, s) && IsSymbol(lens, t)
    requires Growing(tab, kind, lens, root, Rank(lens, t), s, drop, low, curr, next, used)
    requires Rank(lens, t) == Rank(lens, s) + 1 && lens[t] > root && Low(HuffOf(lens, t), root) != low
    ensures FirstLeaf(lens, t) == Block(lens, root, t) * Pow2(MAXBITS - root)
    ensures used == Pow2(root) + SubTables(lens, root, Block(lens, root, t))
  {
    hide Pow2, HuffOf, Low, Block, BlockBits, SubTables, Direct, Linked, FirstLeaf, Rank;
    LowIsBlock(lens, root, s);
    LowIsBlock(lens, root, t);
    NewBlock(lens, root, s, t);
    if lens[s] <= root { NothingBelow(lens, root, s, t); }
  }

  /** Before the first code longer than the root there are no sub-tables. */
  lemma NothingBelow(lens: seq<int>, root: nat, s: int, t: int)
    requires Lengths(lens) && IsSymbol(lens, s) && IsSymbol(lens, t) && root <= MAXBITS
    requires Rank(lens, t) == Rank(lens, s) + 1 && lens[s] <= root < lens[t]
    ensures SubTables(lens, root, Block(lens, root, t)) == 0
  {
    hide SubTables, FirstLeaf, Pow2, Rank;
    var b := Block(lens, root, t);
    forall c: nat, u | c < b ensures !Under(lens, root, c, u) {
      if Under(lens, root, c, u) {
        if Rank(lens, u) < Rank(lens, s) { RankOrder(lens, u, s); }
        if Rank(lens, u) == Rank(lens, s) && u != s { RankDiffers(lens, u, s); }
        if Rank(lens, u) > Rank(lens, t) { LeafOrder(lens, t, u); }
        if Rank(lens, u) == Rank(lens, t) && u != t { RankDiffers(lens, u, t); }
        HighMonotonic(FirstLeaf(lens, t), FirstLeaf(lens, u), MAXBITS - root);
        assert false;
      }
    }
    NoSubTables(lens, root, b);
  }

  lemma HighMonotonic(x: nat, y: nat, n: nat)
    ensures x <= y ==> High(x, n) <= High(y, n)
  {
    hide Pow2;
    var p := Pow2(n);
    DivModIs(x, p);
    DivModIs(y, p);
    if x <= y && x / p > y / p {
      NextMultiple(y / p, x / p, p);
      Commutes(y / p, p);
      Commutes(x / p, p);
      assert false;
    }
  }

  /** Linking the new sub-table from the root table. */
  lemma OpenTable(tab: seq<Code>, kind: Kind, lens: seq<int>, root: nat, s: int, t: int,
                  drop: nat, low: int, curr: nat, next: nat, used: nat, curr': nat, tab': seq<Code>)
    requires Usable(lens) && IsSymbol(lens, s) && IsSymbol(lens, t)
    requires Growing(tab, kind, lens, root, Rank(lens, t), s, drop, low, curr, next, used)
    requires Rank(lens, t) == Rank(lens, s) + 1 && lens[t] > root && Low(HuffOf(lens, t), root) != low
    requires 0 < curr' == BlockBits(lens, root, Block(lens, root, t), |lens|) <= MAXBITS && used + Pow2(curr') <= |tab|
    requires tab' == tab[Low(HuffOf(lens, t), root) := Code(curr', root, used)]
    ensures Growing(tab', kind, lens, root, Rank(lens, t), t, root, Low(HuffOf(lens, t), root), curr', used,
                    used + Pow2(curr'))
  {
    hide Pow2, HuffOf, Low, Block, BlockBits, Direct, Linked, FirstLeaf, Rank;
    NewSpace(tab, kind, lens, root, s, t, drop, low, curr, next, used);
    FirstIsFresh(lens, root, t);
    if lens[s] <= root {
      OpenFirst(tab, kind, lens, root, Rank(lens, t), Low(HuffOf(lens, t), root), curr', used);
    } else {
      OpenNext(tab, kind, lens, root, Rank(lens, t), low, curr, next, Low(HuffOf(lens, t), root), curr', used);
    }
  }

  lemma SpaceWithin(lens: seq<int>, root: nat, t: int, used: nat, curr: nat)
    requires Lengths(lens) && NotOversubscribed(lens) && IsSymbol(lens, t) && root < lens[t]
    requires used == Pow2(root) + SubTables(lens, root, Block(lens, root, t))
    requires 0 < curr == BlockBits(lens, root, Block(lens, root, t), |lens|)
    ensures used + Pow2(curr) <= TableSize(lens, root)
  {
    hide Pow2, Block, BlockBits;
    EntryEnds(lens, root, t);
    SubTablesMonotonic(lens, root, Block(lens, root, t) + 1, Pow2(root));
  }

  // ---- the finished tables ----

  /** After the last code the tables take exactly the space of their longest codes. */
  lemma AllSpace(tab: seq<Code>, kind: Kind, lens: seq<int>, root: nat, i: int, s: int,
                 drop: nat, low: int, curr: nat, next: nat, used: nat)
    requires Usable(lens) && Growing(tab, kind, lens, root, i, s, drop, low, curr, next, used)
    requires Rank(lens, s) == Occurring(lens) - 1
    ensures used == TableSize(lens, root)
  {
    hide Pow2, HuffOf, Low, Block, BlockBits, SubTables, Direct, Linked, FirstLeaf, Rank, Occurring, Longest, Taken;
    if lens[s] <= root {
      forall c: nat, u | c < Pow2(root) ensures !Under(lens, root, c, u) {
        if Under(lens, root, c, u) {
          RankInRange(lens, u);
          if u != s { RankDiffers(lens, u, s); RankOrder(lens, u, s); }
          assert false;
        }
      }
      NoSubTables(lens, root, Pow2(root));
    } else {
      LongestCovers(lens, s);
      RankLast(lens, s);
      LastBlock(lens, root, s);
    }
  }

  lemma LastBlock(lens: seq<int>, root: nat, s: int)
    requires Lengths(lens) && NotOversubscribed(lens) && IsSymbol(lens, s) && root < lens[s]
    requires FirstLeaf(lens, s) + Share(lens[s]) == Pow2(MAXBITS)
    ensures Block(lens, root, s) + 1 == Pow2(root)
  {
    hide Pow2, FirstLeaf, Block;
    var b, big := Block(lens, root, s), Pow2(MAXBITS - root);
    EntryEnds(lens, root, s);
    BlockIs(lens, root, s);
    InSlice(FirstLeaf(lens, s), b, big);
    Pow2Add(root, MAXBITS - root);
    Pow2Add(lens[s] - root, MAXBITS - lens[s]);
    Positive(Pow2(lens[s] - root), Share(lens[s]));
    AddOne(b, big);
    AddOne(b + 1, big);
    if b + 2 <= Pow2(root) {
      if b + 2 < Pow2(root) { NextMultiple(b + 2, Pow2(root), big); }
      assert false;
    }
  }

  /** Only the entries in use matter. */
  lemma Truncate(tab: seq<Code>, used: nat, kind: Kind, lens: seq<int>, root: nat, s: int, hold: nat)
    requires Pow2(root) <= used <= |tab| && 0 <= s < |lens| <= MaxSymbols(kind) && lens[s] >= 0
    requires Decodes(tab, root, kind, lens, s, hold) && Slot(tab, root, hold) < used
    ensures Decodes(tab[..used], root, kind, lens, s, hold)
  {
    hide Pow2, Low, After, Meaning;
  }

  lemma GrownDecodes(tab: seq<Code>, kind: Kind, lens: seq<int>, root: nat, s: int,
                     drop: nat, low: int, curr: nat, next: nat, used: nat, t: int, hold: nat)
    requires Usable(lens) && Growing(tab, kind, lens, root, Occurring(lens), s, drop, low, curr, next, used)
    requires |lens| <= MaxSymbols(kind) && Starts(lens, t, hold)
    ensures Pow2(root) <= used && Decodes(tab[..used], root, kind, lens, t, hold)
  {
    hide Pow2, HuffOf, Low, Block, BlockBits, SubTables, Rank, Occurring, After, Meaning, CodeOf, Reverse, Fetch;
    RankInRange(lens, t);
    if lens[s] <= root {
      assert !IsLink(tab[Low(hold, root)]);
    } else {
      AfterInRange(hold, root, curr);
      assert InPlace(tab, root, hold, low, next);
    }
    Truncate(tab, used, kind, lens, root, t, hold);
  }

  /** A complete code: every stream decodes. */
  lemma CompleteDecoder(tab: seq<Code>, kind: Kind, lens: seq<int>, root: nat, s: int,
                        drop: nat, low: int, curr: nat, next: nat, used: nat)
    requires Usable(lens) && Growing(tab, kind, lens, root, Occurring(lens), s, drop, low, curr, next, used)
    requires |lens| <= MaxSymbols(kind) && Taken(lens, MAXBITS) == Pow2(MAXBITS)
    ensures IsDecoder(tab[..used], root, kind, lens)
  {
    hide Growing, Pow2, HuffOf, Low, Rank, Occurring, Meaning, Starts, Decodes, Taken, Leaf;
    GrowingFacts(tab, kind, lens, root, Occurring(lens), s, drop, low, curr, next, used);
    forall t, hold: nat | Starts(lens, t, hold)
      ensures 0 <= t < |lens| && lens[t] >= 0 && Decodes(tab[..used], root, kind, lens, t, hold)
    {
      StartsHere(lens, t, hold);
      GrownDecodes(tab, kind, lens, root, s, drop, low, curr, next, used, t, hold);
    }
    forall hold: nat ensures HasCode(lens, hold) {
      LeafBelow(hold);
      var t := SomeCode(lens, hold);
    }
  }

  lemma LeafBelow(hold: nat)
    ensures Leaf(hold) < Pow2(MAXBITS)
  {
  }

  lemma GrowingFacts(tab: seq<Code>, kind: Kind, lens: seq<int>, root: nat, i: int, s: int,
                     drop: nat, low: int, curr: nat, next: nat, used: nat)
    requires Growing(tab, kind, lens, root, i, s, drop, low, curr, next, used)
    ensures IsSymbol(lens, s) && Pow2(root) <= used <= |tab| && 1 <= root <= MAXBITS
    ensures drop == 0 || drop == root
  {
    hide Pow2;
  }

  /** A single code of one bit: the other bit is refused, once its entry has been marked. */
  lemma SingleDecoder(tab: seq<Code>, kind: Kind, lens: seq<int>, s: int, low: int, curr: nat, next: nat, used: nat)
    requires Usable(lens) && Growing(tab, kind, lens, 1, Occurring(lens), s, 0, low, curr, next, used)
    requires |lens| <= MaxSymbols(kind) && Longest(lens) == 1 && Taken(lens, MAXBITS) < Pow2(MAXBITS)
    requires Rank(lens, s) == Occurring(lens) - 1
    ensures CodeOf(lens, s) == 0 && lens[s] == 1 && used == 2
    ensures IsDecoder(tab[1 := INVALID][..2], 1, kind, lens)
  {
    hide HuffOf, Rank, Meaning, Taken, Longest, Occurring;
    OnlyOne(lens, s);
    var t := tab[1 := INVALID][..2];
    Pow2Of1();
    assert Starts(lens, s, 0) by { assert Reverse(0, 1) == 0; }
    assert Decodes(tab, 1, kind, lens, s, 0) by { RankInRange(lens, s); }
    assert Low(0, 1) == 0;
    forall u, hold: nat | Starts(lens, u, hold) ensures u == s && Low(hold, 1) == 0 {
      StartsHere(lens, u, hold);
      SameSymbol(lens, u, s);
      assert Reverse(0, 1) == 0;
    }
    forall hold: nat | Low(hold, 1) == 0 ensures Starts(lens, s, hold) { assert Reverse(0, 1) == 0; }
  }

  lemma SameSymbol(lens: seq<int>, u: int, s: int)
    requires Lengths(lens) && IsSymbol(lens, u) && IsSymbol(lens, s)
    requires FirstLeaf(lens, s) == 0 && Rank(lens, s) == Occurring(lens) - 1
    ensures u == s
  {
    hide Rank, FirstLeaf, Occurring;
    RankInRange(lens, u);
    if u != s {
      RankDiffers(lens, u, s);
      LeafOrder(lens, u, s);
      assert false;
    }
  }

  /** One-bit codes that are incomplete are one code. */
  lemma OnlyOne(lens: seq<int>, s: int)
    requires Lengths(lens) && IsSymbol(lens, s) && Longest(lens) == 1 && Taken(lens, MAXBITS) < Pow2(MAXBITS)
    requires Rank(lens, s) == Occurring(lens) - 1
    ensures lens[s] == 1 && CodeOf(lens, s) == 0 && FirstLeaf(lens, s) == 0
  {
    hide Rank, Taken, Longest, Pow2, FirstLeaf;
    LongestCovers(lens, s);
    RankLast(lens, s);
    CodeStarts(lens, s);
    Pow2Step(MAXBITS - 1);
    if CodeOf(lens, s) > 0 {
      NextMultiple(0, CodeOf(lens, s), Pow2(MAXBITS - 1));
      assert false;
    }
  }

  lemma CodeStarts(lens: seq<int>, s: int)
    requires IsSymbol(lens, s) && lens[s] <= MAXBITS
    ensures FirstLeaf(lens, s) == CodeOf(lens, s) * Pow2(MAXBITS - lens[s])
  {
  }
}
