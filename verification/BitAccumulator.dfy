/** inflate's bit accumulator: hold has the next bits of the stream, the bytes that follow have the rest. */
module BitAccumulator {
  import opened Permutations
  import opened Bits
  import opened BitFields
  import opened CanonicalCodes
  import opened ReversedBits
  import opened DecodeTables
  import opened TableSizing
  import opened TableGrowth
  import opened InflateSpec

  // ---- the stream ahead ----

  ghost function Ahead(hold: nat, bits: nat, bytes: seq<Byte>): Stream {
    Stream(hold + Pow2(bits) * LittleEndian(bytes), bits + 8 * |bytes|)
  }

  /** PULLBYTE: adding a byte above the held bits changes nothing. */
  lemma PullKeeps(hold: nat, bits: nat, bytes: seq<Byte>)
    requires |bytes| > 0 && hold < Pow2(bits)
    ensures hold + bytes[0] * Pow2(bits) < Pow2(bits + 8)
    ensures Ahead(hold + bytes[0] * Pow2(bits), bits + 8, bytes[1..]) == Ahead(hold, bits, bytes)
  {
    hide Pow2;
    var p := Pow2(bits);
    assert Pow2(8) == 256 by { Powers(); }
    Pow2Add(bits, 8);
    ByteAbove(p, bytes[0], LittleEndian(bytes[1..]));
    NextMultiple(bytes[0], 256, p);
    Commutes(256, p);
  }

  lemma ByteAbove(p: nat, b: nat, v: nat)
    ensures p * (b + 256 * v) == b * p + (p * 256) * v
  {
  }

  /** BITS: the low bits are those that are held. */
  lemma LowHeld(hold: nat, bits: nat, bytes: seq<Byte>, k: nat)
    requires k <= bits
    ensures Low(Ahead(hold, bits, bytes).value, k) == Low(hold, k)
    ensures High(Ahead(hold, bits, bytes).value, k) == High(hold, k) + Pow2(bits - k) * LittleEndian(bytes)
  {
    hide Pow2;
    var p, v := Pow2(k), Pow2(bits - k) * LittleEndian(bytes);
    Pow2Add(k, bits - k);
    Associates(p, Pow2(bits - k), LittleEndian(bytes));
    DivModIs(hold, p);
    Gather(p, hold / p, v);
    Product(Pow2(bits - k), LittleEndian(bytes));
    QuotientIs(hold + p * v, p, hold / p + v, hold % p);
  }

  lemma Gather(p: nat, a: nat, b: nat)
    ensures p * a + p * b == p * (a + b)
  {
  }

  /** DROPBITS. */
  lemma DropSkips(hold: nat, bits: nat, bytes: seq<Byte>, k: nat)
    requires k <= bits && hold < Pow2(bits)
    ensures High(hold, k) < Pow2(bits - k)
    ensures Ahead(High(hold, k), bits - k, bytes) == Skip(Ahead(hold, bits, bytes), k)
  {
    hide Pow2, Low, High;
    LowHeld(hold, bits, bytes, k);
    HighFits(hold, k, bits - k);
  }

  lemma SkipTwice(s: Stream, m: nat, n: nat)
    requires m + n <= s.count
    ensures Skip(Skip(s, m), n) == Skip(s, m + n)
  {
    hide High;
    DropTwice(s.value, m, n);
  }

  // ---- giving bytes back ----

  /** The top k bytes that are held are the last k bytes of past. */
  ghost predicate Backed(hold: nat, bits: nat, past: seq<Byte>, k: nat)
    decreases k
  {
    k == 0 || (bits >= 8 && |past| > 0 && High(hold, bits - 8) == past[|past| - 1]
               && Backed(Low(hold, bits - 8), bits - 8, past[..|past| - 1], k - 1))
  }

  lemma {:induction false} BackedLess(hold: nat, bits: nat, past: seq<Byte>, k: nat, j: nat)
    requires Backed(hold, bits, past, k) && j <= k
    ensures Backed(hold, bits, past, j)
    decreases k
  {
    hide Low, High;
    if j > 0 { BackedLess(Low(hold, bits - 8), bits - 8, past[..|past| - 1], k - 1, j - 1); }
  }

  lemma {:induction false} BackedBits(hold: nat, bits: nat, past: seq<Byte>, k: nat)
    requires Backed(hold, bits, past, k)
    ensures 8 * k <= bits && k <= |past|
    decreases k
  {
    hide Low, High;
    if k > 0 { BackedBits(Low(hold, bits - 8), bits - 8, past[..|past| - 1], k - 1); }
  }

  lemma BackedPull(hold: nat, bits: nat, past: seq<Byte>, k: nat, b: Byte)
    requires Backed(hold, bits, past, k) && hold < Pow2(bits)
    ensures Backed(hold + b * Pow2(bits), bits + 8, past + [b], k + 1)
  {
    hide Pow2;
    Commutes(b, Pow2(bits));
    QuotientIs(hold + b * Pow2(bits), Pow2(bits), b, hold);
    assert (past + [b])[..|past|] == past;
  }

  lemma {:induction false} BackedDrop(hold: nat, bits: nat, past: seq<Byte>, k: nat, n: nat)
    requires Backed(hold, bits, past, k) && n + 8 * k <= bits
    ensures Backed(High(hold, n), bits - n, past, k)
    decreases k
  {
    hide Low, High;
    if k > 0 {
      DropTwice(hold, n, bits - n - 8);
      LowSplit(hold, n, bits - n - 8);
      assert n + (bits - n - 8) == bits - 8;
      BackedDrop(Low(hold, bits - 8), bits - 8, past[..|past| - 1], k - 1, n);
    }
  }

  /** Bytes given back are the next to come. */
  lemma {:induction false} GiveBack(hold: nat, bits: nat, past: seq<Byte>, rest: seq<Byte>, k: nat)
    requires Backed(hold, bits, past, k) && hold < Pow2(bits)
    ensures 8 * k <= bits && k <= |past|
    ensures Ahead(Low(hold, bits - 8 * k), bits - 8 * k, past[|past| - k..] + rest) == Ahead(hold, bits, rest)
    decreases k
  {
    hide Low, High, Ahead, Pow2;
    BackedBits(hold, bits, past, k);
    if k == 0 {
      LowOfAll(hold, bits);
      assert past[|past|..] + rest == rest;
    } else {
      var b, past' := past[|past| - 1], past[..|past| - 1];
      var hold' := Low(hold, bits - 8);
      GiveBack(hold', bits - 8, past', [b] + rest, k - 1);
      assert past[|past| - k..] + rest == past'[|past'| - (k - 1)..] + ([b] + rest);
      LowLow(hold, bits - 8 * k, bits - 8);
      Reassemble(hold, bits - 8);
      PullKeeps(hold', bits - 8, [b] + rest);
    }
  }

  // ---- codes ----

  /** Where one bit is not enough to begin a code, no further bits help. */
  ghost predicate RefusedEarly(lens: seq<int>) {
    forall h: nat, h': nat | Low(h, 1) == Low(h', 1) && HasCode(lens, h') :: HasCode(lens, h)
  }

  /** Tables that inflate may decode with. */
  ghost predicate CodeTable(tab: seq<Code>, root: nat, kind: Kind, lens: seq<int>) {
    IsDecoder(tab, root, kind, lens) && Lengths(lens) && NotOversubscribed(lens) && RefusedEarly(lens)
  }

  /** Whatever inflate_table accepts decodes in this way. */
  lemma AcceptedTable(tab: seq<Code>, root: nat, kind: Kind, lens: seq<int>, bits: nat)
    requires Lengths(lens) && Verdict(kind, lens, bits) == 0 && IsDecoder(tab, root, kind, lens)
    ensures CodeTable(tab, root, kind, lens)
  {
    hide Pow2, Longest, IsDecoder, Taken, HasCode, Occurring, TableSize;
    DemandIsTaken(lens);
    if Longest(lens) == 0 {
      forall s | 0 <= s < |lens| ensures lens[s] == 0 { LongestCovers(lens, s); }
      forall h: nat ensures !HasCode(lens, h) { NoSymbols(lens, h); }
      assert Taken(lens, MAXBITS) <= Pow2(MAXBITS) by { NoneTaken(lens); }
    } else if Demand(lens) == Pow2(MAXBITS) {
      forall h: nat ensures HasCode(lens, h) {
        LeafBelow(h);
        var s := SomeCode(lens, h);
        CodeFound(lens, s, h);
      }
    } else {
      forall h: nat, h': nat | Low(h, 1) == Low(h', 1) && HasCode(lens, h')
        ensures HasCode(lens, h) { ShortCode(lens, h, h'); }
    }
  }

  lemma CodeFound(lens: seq<int>, s: int, h: nat)
    requires Starts(lens, s, h)
    ensures HasCode(lens, h)
  {
  }

  lemma NoSymbols(lens: seq<int>, h: nat)
    requires forall s | 0 <= s < |lens| :: lens[s] == 0
    ensures !HasCode(lens, h)
  {
    hide Reverse, Low, CodeOf;
  }

  lemma NoneTaken(lens: seq<int>)
    requires Lengths(lens) && forall s | 0 <= s < |lens| :: lens[s] == 0
    ensures Taken(lens, MAXBITS) == 0
  {
    hide Taken, Occurring;
    if Occurring(lens) > 0 { var s := SymbolOfRank(lens, 0); assert false; }
    NothingTaken(lens);
  }

  lemma ShortCode(lens: seq<int>, h: nat, h': nat)
    requires Longest(lens) == 1 && Low(h, 1) == Low(h', 1) && HasCode(lens, h')
    ensures HasCode(lens, h)
  {
    hide Reverse, Low, CodeOf, Longest;
    var s :| Starts(lens, s, h');
    LongestCovers(lens, s);
    assert Starts(lens, s, h);
  }

  lemma FetchSafe(tab: seq<Code>, root: nat, kind: Kind, lens: seq<int>, hold: nat)
    requires CodeTable(tab, root, kind, lens)
    ensures 1 <= root <= MAXBITS && Pow2(root) <= |tab| && |lens| <= MaxSymbols(kind)
    ensures Slot(tab, root, hold) < |tab| && LinksWhole(tab, root, hold) && !IsLink(tab[Slot(tab, root, hold)])
    ensures 0 < Fetch(tab, root, hold).used <= MAXBITS
    ensures Known(kind, Fetch(tab, root, hold))
  {
    hide Pow2, Low, Slot, After, Starts, Meaning, Taken, RefusedEarly;
    if HasCode(lens, hold) {
      var s :| Starts(lens, s, hold);
      StartsHere(lens, s, hold);
      KnownSymbol(kind, s, lens[s]);
    } else {
      assert Refuses(tab, root, hold);
    }
  }

  /** The tokens that occur. */
  ghost predicate Known(kind: Kind, t: Token) {
    && (t.op == 0 || 16 <= t.op < 256) && (kind.DISTS? ==> t.op != 0)
    && (kind.LENS? ==>
          (t.op == 0 ==> t.val < 256) && (t.op == 0 || t.op == 96 || t.op == 64 || t.op == 68 || t.op == 78 ||
                        (16 <= t.op <= 21 && 3 <= t.val && t.val + Pow2(t.op - 16) <= 259)))
    && (kind.DISTS? ==> t.op == 64 || (16 <= t.op <= 29 && 1 <= t.val && t.val + Pow2(t.op - 16) <= 32769))
  }

  lemma KnownSymbol(kind: Kind, s: nat, used: nat)
    requires s < MaxSymbols(kind)
    ensures Known(kind, Token(Meaning(kind, s).0, Meaning(kind, s).1, used))
  {
    if kind.LENS? && s > 256 { KnownLength(s - 257); }
    if kind.DISTS? { KnownDistance(s); }
  }

  /** Lengths are 3 to 258... */
  lemma KnownLength(k: nat)
    requires k < 31
    ensures LENGTH_OP[k] == 68 || LENGTH_OP[k] == 78 ||
            (16 <= LENGTH_OP[k] <= 21 && 3 <= LENGTH_BASE[k] && LENGTH_BASE[k] + Pow2(LENGTH_OP[k] - 16) <= 259)
  {
    hide Pow2;
    Pow2Of1();
    if k < 28 {
      LengthsTile(k);
      assert 3 <= LENGTH_BASE[k] && LENGTH_BASE[k + 1] <= 258 && 16 <= LENGTH_OP[k] <= 21;
    }
  }

  /** ... and distances 1 to 32768. */
  lemma KnownDistance(k: nat)
    requires k < 32
    ensures DIST_OP[k] == 64 || (16 <= DIST_OP[k] <= 29 && 1 <= DIST_BASE[k]
                                 && DIST_BASE[k] + Pow2(DIST_OP[k] - 16) <= 32769)
  {
    hide Pow2;
    assert forall j | 0 <= j < 30 :: 16 <= DIST_OP[j] <= 29;
    assert forall j | 0 <= j < 30 :: 1 <= DIST_BASE[j] <= 24577;
    Powers();
    if k < 30 { Pow2Monotonic(DIST_OP[k] - 16, 13); }
  }

  /** What is looked up with the held bits is what the stream has, once enough bits are held. */
  lemma FetchIs(tab: seq<Code>, root: nat, kind: Kind, lens: seq<int>, hold: nat, bits: nat, bytes: seq<Byte>)
    requires CodeTable(tab, root, kind, lens) && Pow2(root) <= |tab| && Slot(tab, root, hold) < |tab|
    requires |lens| <= MaxSymbols(kind) && Fetch(tab, root, hold).used <= bits
    ensures var d := NextCode(kind, lens, Ahead(hold, bits, bytes));
            d == Coded(Fetch(tab, root, hold)) || (d == NoCode && Fetch(tab, root, hold) == Token(64, 0, 1))
  {
    hide Pow2, Low, Slot, After, Meaning, Taken, Ahead, CodeOf, Reverse, Fetch;
    var s := Ahead(hold, bits, bytes);
    assert s.count >= bits by { AheadCount(hold, bits, bytes); }
    if HasCode(lens, hold) {
      var sym :| Starts(lens, sym, hold);
      assert Decodes(tab, root, kind, lens, sym, hold);
      LowHeld(hold, bits, bytes, lens[sym]);
      assert Starts(lens, sym, s.value);
      TheCode(kind, lens, s, sym);
    } else {
      assert Refuses(tab, root, hold);
      LowHeld(hold, bits, bytes, 1);
      assert !HasCode(lens, s.value);
    }
  }

  lemma AheadCount(hold: nat, bits: nat, bytes: seq<Byte>)
    ensures Ahead(hold, bits, bytes).count == bits + 8 * |bytes|
  {
  }

  lemma TheCode(kind: Kind, lens: seq<int>, s: Stream, sym: int)
    requires |lens| <= MaxSymbols(kind) && Lengths(lens) && NotOversubscribed(lens)
    requires Starts(lens, sym, s.value) && lens[sym] <= s.count
    ensures NextCode(kind, lens, s) == Coded(Token(Meaning(kind, sym).0, Meaning(kind, sym).1, lens[sym]))
  {
    hide Low, Meaning, Taken, CodeOf, Reverse;
    forall t | Starts(lens, t, s.value) ensures t == sym { OneCode(lens, t, sym, s.value); }
  }
}
