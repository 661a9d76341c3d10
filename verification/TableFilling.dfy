/** How the decoding tables grow, one code at a time: the steps of inflate_table's main loop. */
module TableFilling {
  import opened Bits
  import opened BitFields
  import opened Buckets
  import opened CanonicalCodes
  import opened ReversedBits
  import opened DecodeTables

  // ---- bits of the stream ----

  /** A code longer than the root shows in two parts. */
  lemma TwoParts(h: nat, huff: nat, root: nat, len: nat, curr: nat)
    requires root <= len <= root + curr && huff < Pow2(len)
    ensures Low(h, len) == huff <==>
              Low(h, root) == Low(huff, root) && Low(After(h, root, curr), len - root) == High(huff, root)
  {
    hide Pow2;
    LowSplit(h, root, len - root);
    LowSplit(h, root, curr);
    LowLow(High(h, root), len - root, curr);
    DivModIs(huff, Pow2(root));
    if Low(h, len) == huff {
      QuotientIs(huff, Pow2(root), Low(High(h, root), len - root), Low(h, root));
    }
  }

  // ---- where codes lie ----

  /** The code of s as it shows in the stream. */
  ghost function HuffOf(lens: seq<int>, s: int): nat
    requires 0 <= s < |lens| && lens[s] > 0
  {
    Reverse(CodeOf(lens, s), lens[s])
  }

  ghost predicate IsSymbol(lens: seq<int>, s: int) {
    0 <= s < |lens| && lens[s] > 0
  }

  /** The entry of the root table that the code of s falls under, as the stream shows it. */
  lemma LowIsBlock(lens: seq<int>, root: nat, s: int)
    requires Lengths(lens) && NotOversubscribed(lens) && IsSymbol(lens, s) && root <= MAXBITS
    ensures Block(lens, root, s) == Reverse(Low(HuffOf(lens, s), root), root)
    ensures Low(HuffOf(lens, s), root) == Reverse(Block(lens, root, s), root)
  {
    hide CodeOf, Pow2, Reverse;
    CodeFits(lens, s);
    ReverseShift(CodeOf(lens, s), lens[s], MAXBITS - lens[s]);
    ReverseTwice(FirstLeaf(lens, s), MAXBITS);
    ReverseTop(HuffOf(lens, s), root, MAXBITS);
    ReverseTwice(Low(HuffOf(lens, s), root), root);
  }

  lemma LowOfLeaf(hold: nat, root: nat)
    requires root <= MAXBITS
    ensures High(Leaf(hold), MAXBITS - root) == Reverse(Low(hold, root), root)
  {
    ReverseTop(hold, root, MAXBITS);
  }

  lemma Remaining(c: nat, d: nat, m: nat)
    requires d > 0 && m > 0
    ensures c * d % (d * m) + d <= d * m
  {
    DivModIs(c, m);
    var q, r := c / m, c % m;
    Commutes(c, d);
    Nest(d, m, q, r);
    NextMultiple(r, m, d);
    Commutes(d, r);
    Commutes(d, m);
    QuotientIs(c * d, d * m, q, d * r);
  }

  /** A code that falls under another entry than the one before it is the first under its entry, and
      if both are longer than the root, the entries are neighbours. */
  lemma NewBlock(lens: seq<int>, root: nat, s: int, t: int)
    requires Lengths(lens) && IsSymbol(lens, s) && IsSymbol(lens, t) && root <= MAXBITS
    requires Rank(lens, t) == Rank(lens, s) + 1 && lens[t] > root
    requires lens[s] <= root || Block(lens, root, s) != Block(lens, root, t)
    ensures FirstLeaf(lens, t) == Block(lens, root, t) * Pow2(MAXBITS - root)
    ensures lens[s] > root ==> Block(lens, root, t) == Block(lens, root, s) + 1
  {
    hide Rank, CodeOf, Pow2;
    NextLeaf(lens, s, t);
    var l, c, big := lens[s], CodeOf(lens, s), Pow2(MAXBITS - root);
    if l <= root {
      Pow2Add(root - l, MAXBITS - root);
      assert FirstLeaf(lens, t) == (c + 1) * (Pow2(root - l) * big) by { AddOne(c, Pow2(MAXBITS - l)); }
      Associates(c + 1, Pow2(root - l), big);
      Commutes((c + 1) * Pow2(root - l), big);
      QuotientIs(FirstLeaf(lens, t), big, (c + 1) * Pow2(root - l), 0);
    } else {
      Pow2Add(MAXBITS - l, l - root);
      Remaining(c, Pow2(MAXBITS - l), Pow2(l - root));
      Crossing(FirstLeaf(lens, s), Pow2(MAXBITS - l), big);
    }
  }

  lemma Crossing(x: nat, d: nat, big: nat)
    requires big > 0 && 0 < d && x % big + d <= big && x / big != (x + d) / big
    ensures (x + d) / big == x / big + 1
    ensures x + d == (x / big + 1) * big
  {
    DivModIs(x, big);
    var q, r := x / big, x % big;
    if r + d < big { QuotientIs(x + d, big, q, r + d); }
    AddOne(q, big);
    Commutes(q, big);
    Commutes(q + 1, big);
    QuotientIs(x + d, big, q + 1, 0);
  }

  /** Nothing entered so far falls under a fresh entry. */
  ghost predicate Fresh(lens: seq<int>, root: nat, i: int, low: nat) {
    forall s, hold: nat | Starts(lens, s, hold) && Rank(lens, s) < i :: Low(hold, root) != low
  }

  lemma FirstIsFresh(lens: seq<int>, root: nat, t: int)
    requires Lengths(lens) && NotOversubscribed(lens) && IsSymbol(lens, t) && root <= MAXBITS
    requires FirstLeaf(lens, t) == Block(lens, root, t) * Pow2(MAXBITS - root)
    ensures Fresh(lens, root, Rank(lens, t), Low(HuffOf(lens, t), root))
  {
    hide Rank, FirstLeaf, Block, HuffOf, Leaf, Pow2, Share;
    var low := Low(HuffOf(lens, t), root);
    LowIsBlock(lens, root, t);
    forall s, hold: nat | Starts(lens, s, hold) && Rank(lens, s) < Rank(lens, t) ensures Low(hold, root) != low {
      if Low(hold, root) == low {
        LowOfLeaf(hold, root);
        StartsIsLeaf(lens, s, hold);
        LeafOrder(lens, s, t);
        InSlice(Leaf(hold), Block(lens, root, t), Pow2(MAXBITS - root));
        assert false;
      }
    }
  }

  // ---- entering codes ----

  /** A table in which the entries whose last d bits are index have been set, within a range. */
  function Painted(tab: seq<Code>, base: nat, index: nat, d: nat, size: nat, here: Code): (r: seq<Code>)
    requires base + size <= |tab|
    ensures |r| == |tab|
    ensures forall k | 0 <= k < |tab| ::
              r[k] == if base <= k < base + size && Low(k - base, d) == index then here else tab[k]
  {
    seq(|tab|, k requires 0 <= k < |tab| => if base <= k < base + size
        && Low(k - base, d) == index then here else tab[k])
  }

  /** The first i codes decode from the root table alone. */
  ghost predicate Direct(tab: seq<Code>, kind: Kind, lens: seq<int>, root: nat, i: int) {
    && Pow2(root) <= |tab| && |lens| <= MaxSymbols(kind)
    && forall s, hold: nat | Starts(lens, s, hold) && Rank(lens, s) < i ::
         Decodes(tab, root, kind, lens, s, hold) && !IsLink(tab[Low(hold, root)])
  }

  lemma PaintRoot(tab: seq<Code>, kind: Kind, lens: seq<int>, root: nat, i: int, s: int, tab': seq<Code>)
    requires Lengths(lens) && NotOversubscribed(lens) && IsSymbol(lens, s) && Rank(lens, s) == i
    requires Direct(tab, kind, lens, root, i) && lens[s] <= root <= MAXBITS
    requires tab' == Painted(tab, 0, HuffOf(lens, s), lens[s], Pow2(root),
                             Code(Meaning(kind, s).0, lens[s], Meaning(kind, s).1))
    ensures Direct(tab', kind, lens, root, i + 1)
  {
    hide After, Low, High, Rank, Pow2, Meaning, CodeOf, Reverse;
    MeaningIsNoLink(kind, s);
    forall t, hold: nat | Starts(lens, t, hold) && Rank(lens, t) < i + 1
      ensures Decodes(tab', root, kind, lens, t, hold) && !IsLink(tab'[Low(hold, root)])
    {
      LowLow(hold, lens[s], root);
      if t != s {
        RankDiffers(lens, s, t);
        if Starts(lens, s, hold) { OneCode(lens, s, t, hold); }
      }
    }
  }

  /** The first i codes decode, the current sub-table under low being the only one that still grows. */
  ghost predicate Linked(tab: seq<Code>, kind: Kind, lens: seq<int>, root: nat, i: int, low: nat, curr: nat,
                         next: nat) {
    && low < Pow2(root) <= next && next + Pow2(curr) <= |tab| && 0 < curr < 16 && |lens| <= MaxSymbols(kind)
    && tab[low] == Code(curr, root, next)
    && forall s, hold: nat | Starts(lens, s, hold) && Rank(lens, s) < i ::
         Decodes(tab, root, kind, lens, s, hold) && InPlace(tab, root, hold, low, next)
  }

  /** The stream selects an entry of the root table, of a finished sub-table, or of the current one. */
  ghost predicate InPlace(tab: seq<Code>, root: nat, hold: nat, low: nat, next: nat)
    requires Pow2(root) <= |tab|
  {
    var k := Slot(tab, root, hold);
    (k == Low(hold, root) || k >= Pow2(root)) && (Low(hold, root) != low ==> k < next)
  }

  /** Entries that the stream does not select do not matter. */
  lemma SameSlot(tab: seq<Code>, tab': seq<Code>, kind: Kind, lens: seq<int>, root: nat, s: int, hold: nat)
    requires Pow2(root) <= |tab| == |tab'| && 0 <= s < |lens| <= MaxSymbols(kind) && lens[s] >= 0
    requires Decodes(tab, root, kind, lens, s, hold)
    requires tab'[Low(hold, root)] == tab[Low(hold, root)]
    requires tab'[Slot(tab, root, hold)] == tab[Slot(tab, root, hold)]
    ensures Slot(tab', root, hold) == Slot(tab, root, hold) && Decodes(tab', root, kind, lens, s, hold)
  {
    hide After, Low, High, Pow2, Meaning;
  }

  lemma PaintSubTable(tab: seq<Code>, kind: Kind, lens: seq<int>, root: nat, i: int, low: nat, curr: nat, next: nat,
                      s: int, tab': seq<Code>)
    requires Lengths(lens) && NotOversubscribed(lens) && IsSymbol(lens, s) && Rank(lens, s) == i
    requires Linked(tab, kind, lens, root, i, low, curr, next) && root < lens[s] <= root + curr && root <= MAXBITS
    requires Low(HuffOf(lens, s), root) == low
    requires tab' == Painted(tab, next, High(HuffOf(lens, s), root), lens[s] - root, Pow2(curr),
                             Code(Meaning(kind, s).0, lens[s] - root, Meaning(kind, s).1))
    ensures Linked(tab', kind, lens, root, i + 1, low, curr, next)
  {
    hide After, Low, High, Rank, Pow2, Meaning, CodeOf, Reverse, UpPlace, Decodes, InPlace, Painted;
    forall t, hold: nat | Starts(lens, t, hold) && Rank(lens, t) < i + 1
      ensures Decodes(tab', root, kind, lens, t, hold) && InPlace(tab', root, hold, low, next)
    {
      StartsInTwoParts(lens, s, hold, root, curr);
      AfterInRange(hold, root, curr);
      if t == s {
        PaintedHere(tab, kind, lens, root, low, curr, next, s, tab', hold);
      } else {
        RankDiffers(lens, s, t);
        if Starts(lens, s, hold) { OneCode(lens, s, t, hold); }
        PaintedElsewhere(tab, kind, lens, root, low, curr, next, s, tab', t, hold);
      }
    }
  }

  lemma PaintedHere(tab: seq<Code>, kind: Kind, lens: seq<int>, root: nat, low: nat, curr: nat, next: nat,
                    s: int, tab': seq<Code>, hold: nat)
    requires IsSymbol(lens, s) && |lens| <= MaxSymbols(kind) && root < lens[s]
    requires low < Pow2(root) <= next && next + Pow2(curr) <= |tab| && 0 < curr < 16
             && tab[low] == Code(curr, root, next)
    requires Low(hold, root) == low
    requires Low(After(hold, root, curr), lens[s] - root) == High(HuffOf(lens, s), root)
    requires 0 <= After(hold, root, curr) < Pow2(curr)
    requires tab' == Painted(tab, next, High(HuffOf(lens, s), root), lens[s] - root, Pow2(curr),
                             Code(Meaning(kind, s).0, lens[s] - root, Meaning(kind, s).1))
    ensures Decodes(tab', root, kind, lens, s, hold) && InPlace(tab', root, hold, low, next)
  {
    hide After, Low, High, Pow2, Meaning, HuffOf;
    MeaningIsNoLink(kind, s);
    assert tab'[low] == tab[low];
    var k := next + After(hold, root, curr);
    assert Slot(tab', root, hold) == k;
    assert tab'[k] == Code(Meaning(kind, s).0, lens[s] - root, Meaning(kind, s).1);
  }

  lemma PaintedElsewhere(tab: seq<Code>, kind: Kind, lens: seq<int>, root: nat, low: nat, curr: nat, next: nat,
                         s: int, tab': seq<Code>, t: int, hold: nat)
    requires IsSymbol(lens, s) && IsSymbol(lens, t) && |lens| <= MaxSymbols(kind) && root < lens[s]
    requires low < Pow2(root) <= next && next + Pow2(curr) <= |tab| && 0 < curr < 16
             && tab[low] == Code(curr, root, next)
    requires !(Low(hold, root) == low &&
               Low(After(hold, root, curr), lens[s] - root) == High(HuffOf(lens, s), root))
    requires Decodes(tab, root, kind, lens, t, hold) && InPlace(tab, root, hold, low, next)
    requires tab' == Painted(tab, next, High(HuffOf(lens, s), root), lens[s] - root, Pow2(curr),
                             Code(Meaning(kind, s).0, lens[s] - root, Meaning(kind, s).1))
    ensures Decodes(tab', root, kind, lens, t, hold) && InPlace(tab', root, hold, low, next)
  {
    hide After, Low, High, Pow2, Meaning, HuffOf, Fetch;
    var k := Slot(tab, root, hold);
    if Low(hold, root) == low {
      assert k - next == After(hold, root, curr);
    }
    assert tab'[k] == tab[k];
    SameSlot(tab, tab', kind, lens, root, t, hold);
  }

  lemma AfterInRange(hold: nat, root: nat, curr: nat)
    ensures 0 <= After(hold, root, curr) < Pow2(curr)
  {
    hide Pow2;
    LowSplit(hold, root, curr);
  }

  lemma StartsInTwoParts(lens: seq<int>, s: int, hold: nat, root: nat, curr: nat)
    requires Lengths(lens) && IsSymbol(lens, s) && root <= lens[s] <= root + curr
    ensures Starts(lens, s, hold) <==>
              Low(hold, root) == Low(HuffOf(lens, s), root) &&
              Low(After(hold, root, curr), lens[s] - root) == High(HuffOf(lens, s), root)
  {
    hide Pow2, Reverse, CodeOf;
    TwoParts(hold, HuffOf(lens, s), root, lens[s], curr);
  }

  /** Opening the first sub-table... */
  lemma OpenFirst(tab: seq<Code>, kind: Kind, lens: seq<int>, root: nat, i: int, low: nat, curr: nat, next: nat)
    requires Direct(tab, kind, lens, root, i) && Fresh(lens, root, i, low)
    requires low < Pow2(root) == next && next + Pow2(curr) <= |tab| && 0 < curr < 16
    ensures Linked(tab[low := Code(curr, root, next)], kind, lens, root, i, low, curr, next)
  {
    hide After, Low, High, Rank, Pow2, Meaning, CodeOf, Reverse, UpPlace;
    var tab' := tab[low := Code(curr, root, next)];
    forall s, hold: nat | Starts(lens, s, hold) && Rank(lens, s) < i
      ensures Decodes(tab', root, kind, lens, s, hold) && InPlace(tab', root, hold, low, next)
    {
      assert Decodes(tab, root, kind, lens, s, hold);
      assert tab'[Low(hold, root)] == tab[Low(hold, root)];
    }
  }

  /** ... and a further one. */
  lemma OpenNext(tab: seq<Code>, kind: Kind, lens: seq<int>, root: nat, i: int, low0: nat, curr0: nat, next0: nat,
                 low: nat, curr: nat, next: nat)
    requires Linked(tab, kind, lens, root, i, low0, curr0, next0) && Fresh(lens, root, i, low)
    requires low < Pow2(root) && low != low0 && next == next0 + Pow2(curr0) && next + Pow2(curr) <= |tab|
             && 0 < curr < 16
    ensures Linked(tab[low := Code(curr, root, next)], kind, lens, root, i, low, curr, next)
  {
    hide After, Low, High, Rank, Pow2, Meaning, CodeOf, Reverse, UpPlace, Decodes;
    var tab' := tab[low := Code(curr, root, next)];
    forall s, hold: nat | Starts(lens, s, hold) && Rank(lens, s) < i
      ensures Decodes(tab', root, kind, lens, s, hold) && InPlace(tab', root, hold, low, next)
    {
      AfterInRange(hold, root, curr0);
      assert Slot(tab, root, hold) < next by {
        if Low(hold, root) == low0 { assert tab[low0] == Code(curr0, root, next0); }
      }
      SameSlot(tab, tab', kind, lens, root, s, hold);
    }
  }
}
