/** inflate_table: building the decoding tables of a canonical code. */
module InflateTable {
  import opened Bits
  import opened BitFields
  import opened Buckets
  import opened CanonicalCodes
  import opened ReversedBits
  import opened DecodeTables
  import opened TableFilling
  import opened TableSizing
  import opened TableGrowth

  // ---- counting and sorting the lengths ----

  method CountLengths(lens: seq<int>) returns (count: array<int>)
    requires Lengths(lens)
    ensures fresh(count) && count.Length == MAXBITS + 1
    ensures forall l | 0 <= l <= MAXBITS :: count[l] == multiset(lens)[l]
  {
    hide Count;
    count := new int[MAXBITS + 1];
    for len := 0 to MAXBITS + 1
      invariant forall l | 0 <= l < len :: count[l] == 0
    {
      count[len] := 0;
    }
    forall l ensures Count(lens, 0, l) == 0 { CountNone(lens, l); }
    for sym := 0 to |lens|
      invariant forall l | 0 <= l <= MAXBITS :: count[l] == Count(lens, sym, l)
    {
      forall l ensures Count(lens, sym + 1, l) == Count(lens, sym, l) + if lens[sym] == l then 1 else 0 {
        CountStep(lens, sym, l); }
      count[lens[sym]] := count[lens[sym]] + 1;
    }
    forall l ensures Count(lens, |lens|, l) == multiset(lens)[l] { CountAll(lens, l); }
  }

  method FindMax(count: array<int>, ghost lens: seq<int>) returns (max: nat)
    requires Lengths(lens) && count.Length == MAXBITS + 1
    requires forall l | 0 <= l <= MAXBITS :: count[l] == multiset(lens)[l]
    ensures max == Longest(lens) <= MAXBITS
  {
    hide Longest;
    max := MAXBITS;
    while max >= 1
      invariant max <= MAXBITS && forall l | max < l <= MAXBITS :: multiset(lens)[l] == 0
    {
      if count[max] != 0 { break; }
      max := max - 1;
    }
    NoneLonger(lens, max);
    LongestIs(lens, max);
  }

  lemma NoneLonger(lens: seq<int>, max: nat)
    requires Lengths(lens) && forall l | max < l <= MAXBITS :: multiset(lens)[l] == 0
    ensures forall s | 0 <= s < |lens| :: lens[s] <= max
  {
    forall s | 0 <= s < |lens| ensures lens[s] <= max { assert lens[s] in multiset(lens); }
  }

  method FindMin(count: array<int>, max: nat, ghost lens: seq<int>) returns (min: nat)
    requires Lengths(lens) && count.Length == MAXBITS + 1 && 0 < max == Longest(lens) <= MAXBITS
    requires forall l | 0 <= l <= MAXBITS :: count[l] == multiset(lens)[l]
    ensures min == Shortest(lens) && 1 <= min <= max
  {
    hide Longest, Shortest;
    LongestOccurs(lens);
    min := 1;
    while min < max
      invariant 1 <= min <= max && forall l | 0 < l < min :: multiset(lens)[l] == 0
    {
      if count[min] != 0 { break; }
      min := min + 1;
    }
    NoneShorter(lens, min);
    assert min in multiset(lens);
    ShortestIs(lens, min);
  }

  lemma NoneShorter(lens: seq<int>, min: nat)
    requires forall l | 0 < l < min :: multiset(lens)[l] == 0
    ensures forall s | 0 <= s < |lens| :: lens[s] > 0 ==> lens[s] >= min
  {
    forall s | 0 <= s < |lens| && lens[s] > 0 ensures lens[s] >= min { assert lens[s] in multiset(lens); }
  }

  lemma {:induction false} LongestOccurs(lens: seq<int>)
    requires Longest(lens) > 0
    ensures multiset(lens)[Longest(lens) as int] > 0
  {
    var front, x := lens[..|lens| - 1], lens[|lens| - 1];
    assert lens == front + [x];
    if Longest(front) > 0 { LongestOccurs(front); }
  }

  /** The check for over-subscribed lengths; what is left over, if they are not. */
  method CheckLengths(count: array<int>, ghost lens: seq<int>) returns (left: int)
    requires count.Length == MAXBITS + 1
    requires forall l | 0 <= l <= MAXBITS :: count[l] == multiset(lens)[l]
    ensures left < 0 <==> Taken(lens, MAXBITS) > Pow2(MAXBITS)
    ensures left >= 0 ==> left == Pow2(MAXBITS) - Taken(lens, MAXBITS)
  {
    hide Pow2, Taken;
    Pow2Of1();
    TakenNone(lens);
    left := 1;
    for len := 1 to MAXBITS + 1
      invariant left == Pow2(len - 1) - Taken(lens, len - 1) && left >= 0
    {
      Pow2Step(len - 1);
      TakenStep(lens, len);
      left := left * 2;
      left := left - count[len];
      if left < 0 {
        OversubscribedStays(lens, len, MAXBITS);
        return;
      }
    }
  }

  lemma TakenNone(lens: seq<int>)
    ensures Taken(lens, 0) == 0
  {
  }

  lemma TakenStep(lens: seq<int>, n: nat)
    requires n > 0
    ensures Taken(lens, n) == 2 * Taken(lens, n - 1) + multiset(lens)[n as int]
  {
  }

  lemma {:induction false} OversubscribedStays(lens: seq<int>, m: nat, n: nat)
    requires m <= n && Taken(lens, m) > Pow2(m)
    ensures Taken(lens, n) > Pow2(n)
    decreases n
  {
    if m < n { OversubscribedStays(lens, m, n - 1); }
  }

  /** The symbols that occur, by length and then by symbol. */
  ghost predicate IsSorted(work: seq<int>, lens: seq<int>)
    requires Lengths(lens)
  {
    forall s | IsSymbol(lens, s) :: 0 <= Rank(lens, s) < |work| && work[Rank(lens, s)] == s
  }

  method SortSymbols(count: array<int>, lens: seq<int>, work: array<int>)
    requires Lengths(lens) && count.Length == MAXBITS + 1 && work != count && |lens| <= work.Length
    requires forall l | 0 <= l <= MAXBITS :: count[l] == multiset(lens)[l]
    modifies work
    ensures IsSorted(work[..], lens)
  {
    hide Count, Start;
    var offs := new int[MAXBITS + 1];
    offs[1] := 0;
    for len := 1 to MAXBITS
      invariant forall l | 1 <= l <= len :: offs[l] == Start(lens, l) - Start(lens, 1)
    {
      StartStep(lens, len);
      offs[len + 1] := offs[len] + count[len];
    }
    forall l ensures Count(lens, 0, l) == 0 { CountNone(lens, l); }
    for sym := 0 to |lens|
      invariant forall l | 1 <= l <= MAXBITS :: offs[l] == Start(lens, l) - Start(lens, 1) + Count(lens, sym, l)
      invariant forall s | 0 <= s < sym && lens[s] > 0 :: 0 <= Rank(lens, s) < |lens| && work[Rank(lens, s)] == s
    {
      forall l ensures Count(lens, sym + 1, l) == Count(lens, sym, l) + if lens[sym] == l then 1 else 0 {
        CountStep(lens, sym, l); }
      if lens[sym] != 0 {
        RankInRange(lens, sym);
        forall s | 0 <= s < sym && lens[s] > 0 ensures Rank(lens, s) != Rank(lens, sym) { RankDiffers(lens, s, sym); }
        work[offs[lens[sym]]] := sym;
        offs[lens[sym]] := offs[lens[sym]] + 1;
      }
    }
  }

  // ---- one code ----

  /** Entering one code in every slot that begins with it. */
  method Replicate(codes: array<Code>, at: nat, index: nat, d: nat, curr: nat, here: Code)
    requires at + Pow2(curr) <= codes.Length && d <= curr && index < Pow2(d)
    modifies codes
    ensures codes[..] == Painted(old(codes[..]), at, index, d, Pow2(curr), here)
  {
    hide Pow2, Low;
    var incr := Pow2(d);
    var fill: nat := Pow2(curr);
    Pow2Add(d, curr - d);
    ghost var n := Pow2(curr - d);
    Commutes(incr, n);
    while fill != 0
      invariant fill == n * incr <= Pow2(curr)
      invariant forall k | 0 <= k < codes.Length ::
                  codes[k] == (if at + fill <= k < at + Pow2(curr)
                               && Low(k - at, d) == index then here else old(codes[k]))
    {
      Multiple(n, incr);
      n := n - 1;
      AddOne(n, incr);
      forall k: nat | fill - incr <= k < fill ensures Low(k, d) == k - (fill - incr) { LowOffset(n, d, k); }
      fill := fill - incr;
      codes[at + index + fill] := here;
    }
  }

  lemma Multiple(n: nat, p: nat)
    requires n * p != 0
    ensures n > 0
  {
  }

  lemma LowOffset(n: nat, d: nat, k: nat)
    requires n * Pow2(d) <= k < n * Pow2(d) + Pow2(d)
    ensures Low(k, d) == k - n * Pow2(d)
  {
    hide Pow2;
    Commutes(n, Pow2(d));
    QuotientIs(k, Pow2(d), n, k - n * Pow2(d));
  }

  /** x & p, for a power of two. */
  predicate HasBit(x: nat, p: nat)
    requires p > 0
  {
    x / p % 2 == 1
  }

  /** The k low bits of c are ones, which the reversal huff has at the top. */
  ghost predicate Carrying(c: nat, len: nat, huff: nat, k: nat, q: nat) {
    && k <= len && q < Pow2(len - k)
    && c == q * Pow2(k) + (Pow2(k) - 1)
    && huff == (Pow2(k) - 1) * Pow2(len - k) + Reverse(q, len - k)
  }

  lemma CarryStart(c: nat, len: nat)
    requires c < Pow2(len)
    ensures Carrying(c, len, Reverse(c, len), 0, c)
  {
    hide Reverse;
    Pow2Of1();
  }

  lemma CarryBit(c: nat, len: nat, huff: nat, k: nat, q: nat)
    requires Carrying(c, len, huff, k, q) && k < len
    ensures HasBit(huff, Pow2(len - 1 - k)) <==> q % 2 == 1
    ensures huff % Pow2(len - 1 - k) == Reverse(q / 2, len - 1 - k)
  {
    hide Reverse, Pow2;
    var p, ones := Pow2(len - 1 - k), Pow2(k) - 1;
    Pow2Step(len - 1 - k);
    ReverseStep(q, len - k);
    TopBits(ones, p, q % 2);
    QuotientIs(huff, p, 2 * ones + q % 2, Reverse(q / 2, len - 1 - k));
  }

  lemma TopBits(ones: int, p: int, b: int)
    ensures ones * (2 * p) + p * b == p * (2 * ones + b)
  {
  }

  lemma CarryStep(c: nat, len: nat, huff: nat, k: nat, q: nat)
    requires Carrying(c, len, huff, k, q) && k < len && q % 2 == 1
    ensures Carrying(c, len, huff, k + 1, q / 2)
  {
    hide Reverse, Pow2;
    var p, ones := Pow2(len - 1 - k), Pow2(k) - 1;
    Pow2Step(len - 1 - k);
    Pow2Step(k);
    ReverseStep(q, len - k);
    TopBits(ones, p, 1);
    Commutes(p, Pow2(k + 1) - 1);
    OddTimes(q / 2, Pow2(k));
  }

  lemma OddTimes(h: nat, p: nat)
    ensures (2 * h + 1) * p == h * (2 * p) + p
  {
  }

  lemma CarryDone(c: nat, len: nat, huff: nat, k: nat, q: nat)
    requires Carrying(c, len, huff, k, q) && k < len && q % 2 == 0
    ensures c + 1 < Pow2(len)
    ensures huff % Pow2(len - 1 - k) + Pow2(len - 1 - k) == Reverse(c + 1, len)
  {
    hide Reverse, Pow2, Carrying;
    CarryBit(c, len, huff, k, q);
    ReverseDouble(q / 2, len - 1 - k);
    assert 2 * (q / 2) + 1 == q + 1;
    NextCode(c, len, huff, k, q);
    ReverseShift(q + 1, len - k, k);
  }

  lemma NextCode(c: nat, len: nat, huff: nat, k: nat, q: nat)
    requires Carrying(c, len, huff, k, q) && k < len && q % 2 == 0
    ensures c + 1 == (q + 1) * Pow2(k) < Pow2(len)
  {
    hide Reverse, Pow2, Carrying;
    CarryFrom(c, len, huff, k, q);
    Pow2Step(len - 1 - k);
    AddOne(q, Pow2(k));
    Pow2Add(len - k, k);
    NextMultiple(q + 1, Pow2(len - k), Pow2(k));
  }

  lemma CarryFrom(c: nat, len: nat, huff: nat, k: nat, q: nat)
    requires Carrying(c, len, huff, k, q)
    ensures c == q * Pow2(k) + (Pow2(k) - 1) && q < Pow2(len - k)
  {
    hide Reverse, Pow2;
  }

  lemma CarryOut(c: nat, len: nat, huff: nat, q: nat)
    requires Carrying(c, len, huff, len, q)
    ensures c + 1 == Pow2(len)
  {
    Pow2Of1();
  }

  /** Backwards increment: the reversal of the next code, or 0 if there is none. */
  method AdvanceHuff(huff: nat, len: nat, ghost c: nat) returns (r: nat)
    requires len > 0 && c < Pow2(len) && huff == Reverse(c, len)
    ensures c + 1 < Pow2(len) ==> r == Reverse(c + 1, len)
    ensures c + 1 >= Pow2(len) ==> r == 0
  {
    hide Pow2, Reverse, Carrying, HasBit;
    CarryStart(c, len);
    Pow2Of1();
    var incr := Pow2(len - 1);
    ghost var k, q := 0, c;
    while incr != 0 && HasBit(huff, incr)
      invariant k <= len && incr == (if k < len then Pow2(len - 1 - k) else 0)
      invariant Carrying(c, len, huff, k, q)
      decreases incr
    {
      CarryBit(c, len, huff, k, q);
      CarryStep(c, len, huff, k, q);
      if k < len - 1 { Pow2Step(len - 2 - k); }
      incr := incr / 2;
      q, k := q / 2, k + 1;
    }
    if incr != 0 {
      CarryBit(c, len, huff, k, q);
      CarryDone(c, len, huff, k, q);
      r := huff % incr + incr;
    } else {
      CarryOut(c, len, huff, q);
      r := 0;
    }
  }

  lemma PaintedAfter(all: seq<Code>, start: nat, next: nat, index: nat, d: nat, size: nat, here: Code)
    requires start + next + size <= |all|
    ensures Painted(all, start + next, index, d, size, here)[..start] == all[..start]
    ensures Painted(all, start + next, index, d, size, here)[start..] ==
            Painted(all[start..], next, index, d, size, here)
  {
    hide Low;
    var p, q := Painted(all, start + next, index, d, size, here), Painted(all[start..], next, index, d, size, here);
    assert p[..start] == all[..start];
    forall k | 0 <= k < |q| ensures p[start..][k] == q[k] { assert p[start..][k] == p[start + k]; }
    assert p[start..] == q;
  }

  /** Creating the entry for a symbol and replicating it. */
  method EnterSymbol(kind: Kind, sym: nat, codes: array<Code>, start: nat, next: nat,
                     huff: nat, len: nat, drop: nat, curr: nat)
    requires sym < MaxSymbols(kind) && drop <= len <= drop + curr && huff < Pow2(len)
    requires start + next + Pow2(curr) <= codes.Length
    modifies codes
    ensures codes[..start] == old(codes[..start])
    ensures codes[start..] ==
            Painted(old(codes[start..]), next, High(huff, drop), len - drop, Pow2(curr), Entry(kind, sym, len, drop))
  {
    hide Pow2, High, Painted, Meaning;
    ghost var all := codes[..];
    var meaning := Meaning(kind, sym);
    var here := Code(meaning.0, len - drop, meaning.1);
    HighFits(huff, drop, len - drop);
    PaintedAfter(all, start, next, High(huff, drop), len - drop, Pow2(curr), here);
    Replicate(codes, start + next, High(huff, drop), len - drop, curr, here);
    assert codes[..start] == codes[..][..start] && codes[start..] == codes[..][start..];
    assert all[..start] == old(codes[..start]) && all[start..] == old(codes[start..]);
  }

  // ---- the counts from one code to the next ----

  lemma CountNext(count: seq<int>, lens: seq<int>, s: int)
    requires Lengths(lens) && IsSymbol(lens, s) && Counts(count, lens, Rank(lens, s), lens[s])
    ensures count[lens[s]] > 0
    ensures count[lens[s]] == 1 && lens[s] == Longest(lens) <==> Rank(lens, s) + 1 == Occurring(lens)
  {
    hide Start, Count, Longest;
    PlacesInBucket(lens, s);
    LongestCovers(lens, s);
    LongestBound(lens, MAXBITS);
    LongestOccurs(lens);
    var l, m := lens[s], Longest(lens);
    StartMonotonic(lens, l + 1, m + 1);
    StartMonotonic(lens, m + 1, MAXBITS + 1);
    StartTotal(lens, MAXBITS + 1);
    forall k | 0 <= k < |lens| ensures 0 <= lens[k] < m + 1 { LongestCovers(lens, k); }
    StartTotal(lens, m + 1);
    if l < m {
      StartMonotonic(lens, l + 1, m);
      StartStep(lens, m);
    }
  }

  lemma CountsNext(count: seq<int>, count': seq<int>, lens: seq<int>, s: int, t: int)
    requires Lengths(lens) && IsSymbol(lens, s) && IsSymbol(lens, t) && Rank(lens, t) == Rank(lens, s) + 1
    requires Counts(count, lens, Rank(lens, s), lens[s]) && count' == count[lens[s] := count[lens[s]] - 1]
    ensures lens[s] <= lens[t] && (count'[lens[s]] != 0 ==> lens[t] == lens[s])
    ensures Counts(count', lens, Rank(lens, t), lens[t])
  {
    hide Start, Count;
    PlacesInBucket(lens, s);
    PlacesInBucket(lens, t);
    RankOrder(lens, s, t);
    if lens[s] < lens[t] {
      StartMonotonic(lens, lens[s] + 1, lens[t]);
      StartStep(lens, lens[t]);
    }
  }

  lemma FirstSymbol(count: seq<int>, lens: seq<int>) returns (s: int)
    requires Lengths(lens) && Longest(lens) > 0 && |count| == MAXBITS + 1
    requires forall l | 0 <= l <= MAXBITS :: count[l] == multiset(lens)[l]
    ensures IsSymbol(lens, s) && Rank(lens, s) == 0 && lens[s] == Shortest(lens)
    ensures Counts(count, lens, 0, lens[s])
  {
    hide Start, Count, Longest, Shortest, Occurring;
    var m := SomeShortest(lens);
    RankInRange(lens, m);
    s := SymbolOfRank(lens, 0);
    ShortestCovers(lens, s);
    if m != s { RankDiffers(lens, m, s); RankOrder(lens, s, m); }
    PlacesInBucket(lens, s);
    StartMonotonic(lens, 1, lens[s]);
    StartStep(lens, lens[s]);
  }

  lemma {:induction false} ShortestCovers(lens: seq<int>, s: int)
    requires IsSymbol(lens, s)
    ensures 0 < Shortest(lens) <= lens[s]
  {
    if s < |lens| - 1 { ShortestCovers(lens[..|lens| - 1], s); }
  }

  lemma SomeShortest(lens: seq<int>) returns (m: int)
    requires Longest(lens) > 0
    ensures IsSymbol(lens, m) && lens[m] == Shortest(lens)
  {
    LongestOccurs(lens);
    assert Longest(lens) in multiset(lens);
    var k :| 0 <= k < |lens| && lens[k] == Longest(lens);
    ShortestCovers(lens, k);
    m := ShortestOccurs(lens);
  }

  lemma {:induction false} ShortestOccurs(lens: seq<int>) returns (m: int)
    requires Shortest(lens) > 0
    ensures IsSymbol(lens, m) && lens[m] == Shortest(lens)
  {
    var front, x := lens[..|lens| - 1], lens[|lens| - 1];
    if Shortest(lens) == x { m := |lens| - 1; } else { m := ShortestOccurs(front); }
  }

  // ---- the main loop ----

  /** The table has the room that inflate_table needs: ENOUGH entries, or for the code
      lengths code, which is not checked, all that its tables take. */
  ghost predicate RoomFor(kind: Kind, lens: seq<int>, root: nat, size: int)
    requires root <= MAXBITS
  {
    if kind.CODES? then TableSize(lens, root) <= size else Enough(kind) <= size
  }

  predicate IsFull(kind: Kind, used: nat) {
    !kind.CODES? && used >= Enough(kind)
  }

  lemma GrowingRoom(tab: seq<Code>, kind: Kind, lens: seq<int>, root: nat, i: int, s: int,
                    drop: nat, low: int, curr: nat, next: nat, used: nat)
    requires Usable(lens) && Growing(tab, kind, lens, root, i, s, drop, low, curr, next, used)
    ensures drop <= lens[s] <= drop + curr && next + Pow2(curr) == used <= |tab|
    ensures HuffOf(lens, s) < Pow2(lens[s])
    ensures lens[s] > root <==> drop != 0
  {
    hide Pow2, Block, BlockBits, SubTables, Direct, Linked, HuffOf;
    if lens[s] > root { FitsUnder(lens, root, s); }
    HuffBelow(lens, s);
  }

  lemma HuffBelow(lens: seq<int>, s: int)
    requires IsSymbol(lens, s)
    ensures HuffOf(lens, s) < Pow2(lens[s])
  {
  }

  lemma SizeAtLeast(lens: seq<int>, root: nat)
    requires root <= MAXBITS
    ensures TableSize(lens, root) >= Pow2(root)
  {
    hide Pow2;
  }

  lemma UsableFacts(lens: seq<int>)
    requires Usable(lens)
    ensures Lengths(lens) && NotOversubscribed(lens)
    ensures Longest(lens) != 1 ==> Taken(lens, MAXBITS) == Pow2(MAXBITS)
    ensures Taken(lens, MAXBITS) <= Pow2(MAXBITS)
  {
  }

  lemma HuffOfFirst(lens: seq<int>, s: int)
    requires Lengths(lens) && IsSymbol(lens, s) && Rank(lens, s) == 0
    ensures HuffOf(lens, s) == 0
  {
    hide Rank, Pow2;
    RankZero(lens, s);
    var p := Pow2(MAXBITS - lens[s]);
    if CodeOf(lens, s) > 0 { NextMultiple(0, CodeOf(lens, s), p); assert false; }
    ReverseZero(lens[s]);
  }

  lemma {:induction false} ReverseZero(n: nat)
    ensures Reverse(0, n) == 0
  {
    if n > 0 { ReverseZero(n - 1); }
  }

  lemma SortedAt(work: seq<int>, lens: seq<int>, s: int)
    requires Lengths(lens) && IsSorted(work, lens) && IsSymbol(lens, s)
    ensures 0 <= Rank(lens, s) < |work| && work[Rank(lens, s)] == s
  {
  }

  /** There is room for a sub-table that does not fill the table. */
  lemma RoomLeft(kind: Kind, lens: seq<int>, root: nat, size: int, used: nat)
    requires root <= MAXBITS && RoomFor(kind, lens, root, size) && used <= TableSize(lens, root)
    ensures !IsFull(kind, used) ==> used <= size
    ensures IsFull(kind, used) ==> IsFull(kind, TableSize(lens, root))
  {
    hide TableSize;
  }

  lemma LastHuff(lens: seq<int>, s: int)
    requires Lengths(lens) && NotOversubscribed(lens) && IsSymbol(lens, s) && Rank(lens, s) == Occurring(lens) - 1
    ensures Taken(lens, MAXBITS) == Pow2(MAXBITS) ==> CodeOf(lens, s) + 1 == Pow2(lens[s])
  {
    hide Rank, Occurring, Pow2, Taken, FirstLeaf;
    RankLast(lens, s);
    CodeStarts(lens, s);
    var p := Pow2(MAXBITS - lens[s]);
    Pow2Add(lens[s], MAXBITS - lens[s]);
    AddOne(CodeOf(lens, s), p);
    if Taken(lens, MAXBITS) == Pow2(MAXBITS) { CancelEqual(CodeOf(lens, s) + 1, Pow2(lens[s]), p); }
  }

  /** Marking the one entry that is left if the code is incomplete. */
  method Finish(kind: Kind, ghost lens: seq<int>, codes: array<Code>, start: nat, root: nat, huff: nat, len: nat,
                ghost s: int, drop: nat, ghost low: int, ghost curr: nat, next: nat, ghost used: nat)
    requires start <= codes.Length && |lens| <= MaxSymbols(kind)
    requires Usable(lens) && IsSymbol(lens, s) && Rank(lens, s) == Occurring(lens) - 1 && root <= Longest(lens)
    requires Growing(codes[start..], kind, lens, root, Occurring(lens), s, drop, low, curr, next, used)
    requires len == lens[s] && huff == if CodeOf(lens, s) + 1 < Pow2(len) then Reverse(CodeOf(lens, s) + 1, len) else 0
    modifies codes
    ensures codes[..start] == old(codes[..start])
    ensures used == TableSize(lens, root) && start + used <= codes.Length
    ensures IsDecoder(codes[start..start + used], root, kind, lens)
  {
    hide Pow2, HuffOf, Rank, Occurring, Growing, Longest, TableSize, CodeOf, Reverse, Taken, IsDecoder, Meaning, Usable;
    UsableFacts(lens);
    GrowingFacts(codes[start..], kind, lens, root, Occurring(lens), s, drop, low, curr, next, used);
    AllSpace(codes[start..], kind, lens, root, Occurring(lens), s, drop, low, curr, next, used);
    LastHuff(lens, s);
    ghost var tab := codes[start..];
    if Taken(lens, MAXBITS) == Pow2(MAXBITS) {
      CompleteDecoder(tab, kind, lens, root, s, drop, low, curr, next, used);
      assert codes[start..start + used] == tab[..used];
    } else {
      SingleTable(tab, kind, lens, root, s, drop, low, curr, next, used);
      SingleDecoder(tab, kind, lens, s, low, curr, next, used);
    }
    if huff != 0 {
      codes[start + next + huff] := Code(64, len - drop, 0);
      assert codes[start..] == tab[1 := INVALID];
      assert codes[start..start + used] == codes[start..][..used];
    }
  }

  lemma SingleTable(tab: seq<Code>, kind: Kind, lens: seq<int>, root: nat, s: int,
                    drop: nat, low: int, curr: nat, next: nat, used: nat)
    requires Usable(lens) && IsSymbol(lens, s) && Rank(lens, s) == Occurring(lens) - 1 && root <= Longest(lens)
    requires Growing(tab, kind, lens, root, Occurring(lens), s, drop, low, curr, next, used)
    requires Taken(lens, MAXBITS) != Pow2(MAXBITS)
    ensures root == 1 && drop == 0 && next == 0 && Longest(lens) == 1
    ensures CodeOf(lens, s) + 1 < Pow2(lens[s]) && lens[s] == 1 && Reverse(CodeOf(lens, s) + 1, lens[s]) == 1
  {
    hide Rank, Occurring, Longest, CodeOf, Taken, Direct, Linked, Block, BlockBits, SubTables, HuffOf;
    OnlyOne(lens, s);
    Pow2Of1();
  }

  method FillTables(kind: Kind, lens: seq<int>, codes: array<Code>, start: nat, root: nat, min: nat, max: nat,
                    count: array<int>, work: array<int>)
    returns (full: bool, used: nat)
    requires Usable(lens) && |lens| <= MaxSymbols(kind)
             && 0 < min == Shortest(lens) <= root <= max == Longest(lens) <= MAXBITS
    requires count.Length == MAXBITS + 1 && forall l | 0 <= l <= MAXBITS :: count[l] == multiset(lens)[l]
    requires IsSorted(work[..], lens) && count != work
    requires start <= codes.Length && RoomFor(kind, lens, root, codes.Length - start)
    modifies codes, count
    ensures codes[..start] == old(codes[..start])
    ensures full <==> IsFull(kind, TableSize(lens, root))
    ensures !full ==> used == TableSize(lens, root) && start + used <= codes.Length
    ensures !full ==> IsDecoder(codes[start..start + used], root, kind, lens)
  {
    hide Pow2, HuffOf, Low, High, Rank, Occurring, Counts, Growing, IsSorted, Longest, Shortest, TableSize, Painted,
         Direct, Linked, Reverse, CodeOf, FirstLeaf, Block, BlockBits, SubTables, Taken, IsDecoder, Meaning, Usable,
         RoomFor, IsFull;
    ghost var size := codes.Length - start;
    ghost var sorted := work[..];
    LengthsUsable(lens);
    ghost var s := FirstSymbol(count[..], lens);
    var huff: nat, sym, len: nat, next: nat, curr: nat, drop: nat, low := 0, 0, min, 0, root, 0, -1;
    used := Pow2(root);
    SizeAtLeast(lens, root);
    RoomLeft(kind, lens, root, size, used);
    full := IsFull(kind, used);
    if full { return; }
    UsableFacts(lens);
    StartGrowing(codes[start..], kind, lens, root, s);
    HuffOfFirst(lens, s);
    RankInRange(lens, s);
    while true
      invariant !full && IsSymbol(lens, s) && 0 <= sym == Rank(lens, s) < Occurring(lens)
      invariant Growing(codes[start..], kind, lens, root, sym, s, drop, low, curr, next, used)
      invariant Counts(count[..], lens, sym, len) && len == lens[s] && huff == HuffOf(lens, s)
      invariant !IsFull(kind, used) && work[..] == sorted && codes[..start] == old(codes[..start])
      decreases Occurring(lens) - sym
    {
      SortedAt(work[..], lens, s);
      GrowingRoom(codes[start..], kind, lens, root, sym, s, drop, low, curr, next, used);
      ghost var tab := codes[start..];
      EnterSymbol(kind, work[sym], codes, start, next, huff, len, drop, curr);
      EnterCode(tab, kind, lens, root, s, drop, low, curr, next, used, codes[start..]);
      CodeFits(lens, s);
      HuffIs(lens, s);
      huff := AdvanceHuff(huff, len, CodeOf(lens, s));
      CountNext(count[..], lens, s);
      ghost var count0 := count[..];
      CountLength(count0, lens, sym, len);
      sym := sym + 1;
      count[len] := count[len] - 1;
      assert count[..] == count0[len := count0[len] - 1];
      if count[len] == 0 && len == max { break; }
      ghost var t := SymbolOfRank(lens, sym);
      SortedAt(work[..], lens, t);
      CountsNext(count0, count[..], lens, s, t);
      NextHuff(lens, s, t);
      if count[len] == 0 { len := lens[work[sym]]; }
      if len > root && Low(huff, root) != low {
        tab := codes[start..];
        NewSpace(tab, kind, lens, root, s, t, drop, low, curr, next, used);
        GrowingRoom(tab, kind, lens, root, sym, s, drop, low, curr, next, used);
        GrowingFacts(tab, kind, lens, root, sym, s, drop, low, curr, next, used);
        LongestCovers(lens, t);
        ghost var drop0, low0, curr0, next0, used0 := drop, low, curr, next, used;
        if drop == 0 { drop := root; }
        next := next + Pow2(curr);
        curr := SizeTable(count, len, root, max, lens, t);
        used := used + Pow2(curr);
        SpaceWithin(lens, root, t, used0, curr);
        RoomLeft(kind, lens, root, size, used);
        full := IsFull(kind, used);
        if full { return; }
        low := Low(huff, root);
        codes[start + low] := Code(curr, root, next);
        assert codes[start..] == tab[low := Code(curr, root, next)];
        OpenTable(tab, kind, lens, root, s, t, drop0, low0, curr0, next0, used0, curr, codes[start..]);
      } else {
        SameTable(codes[start..], kind, lens, root, sym, s, t, drop, low, curr, next, used);
      }
      s := t;
    }
    Finish(kind, lens, codes, start, root, huff, len, s, drop, low, curr, next, used);
    RoomLeft(kind, lens, root, size, used);
  }

  lemma LengthsUsable(lens: seq<int>)
    requires Usable(lens)
    ensures Lengths(lens)
  {
  }

  lemma HuffIs(lens: seq<int>, s: int)
    requires IsSymbol(lens, s)
    ensures HuffOf(lens, s) == Reverse(CodeOf(lens, s), lens[s])
  {
  }

  lemma CountLength(count: seq<int>, lens: seq<int>, i: int, len: int)
    requires Counts(count, lens, i, len)
    ensures |count| == MAXBITS + 1 && 1 <= len <= MAXBITS
  {
  }

  // ---- inflate_table ----

  /** inflate_table: codes is the table, from start on; next is the place after the tables built, and
      root the index bits of the root table. */
  method InflateTable(kind: Kind, lens: seq<int>, codes: array<Code>, start: nat, bits: nat, work: array<int>)
    returns (ret: int, next: nat, root: nat)
    requires Lengths(lens) && |lens| <= MaxSymbols(kind) && |lens| <= work.Length
    requires start + 2 <= codes.Length && RoomFor(kind, lens, RootBits(lens, bits), codes.Length - start)
    modifies codes, work
    ensures codes[..start] == old(codes[..start])
    ensures ret == Verdict(kind, lens, bits)
    ensures ret != 0 ==> next == start && root == bits
    ensures ret == 0 ==> start <= next <= codes.Length && IsDecoder(codes[start..next], root, kind, lens)
    ensures ret == 0 && Longest(lens) == 0 ==> next == start + 2 && root == 1
    ensures ret == 0 && Longest(lens) > 0 ==> root == RootBits(lens, bits) && next == start + TableSize(lens, root)
  {
    hide Pow2, Longest, Shortest, TableSize, Taken, IsDecoder, IsSorted, RoomFor;
    DemandIsTaken(lens);
    next, root := start, bits;
    var count := CountLengths(lens);
    var max := FindMax(count, lens);
    var r := bits;
    if r > max { r := max; }
    if max == 0 {
      codes[start] := INVALID;
      codes[start + 1] := INVALID;
      EmptyDecoder(codes[start..start + 2], kind, lens);
      return 0, start + 2, 1;
    }
    var min := FindMin(count, max, lens);
    if r < min { r := min; }
    RootIs(lens, bits, r);
    var left := CheckLengths(count, lens);
    if left < 0 { return -1, next, root; }
    if left > 0 && (kind.CODES? || max != 1) { return -1, next, root; }
    SortSymbols(count, lens, work);
    var full, used := FillTables(kind, lens, codes, start, r, min, max, count, work);
    if full { return 1, next, root; }
    return 0, start + used, r;
  }

  /** No symbols: the tables refuse everything. */
  lemma EmptyDecoder(tab: seq<Code>, kind: Kind, lens: seq<int>)
    requires Longest(lens) == 0 && |lens| <= MaxSymbols(kind) && tab == [INVALID, INVALID]
    ensures IsDecoder(tab, 1, kind, lens)
  {
    hide Longest, Reverse, CodeOf, Low;
    Pow2Of1();
    forall s, hold: nat ensures !Starts(lens, s, hold) {
      if IsSymbol(lens, s) { LongestCovers(lens, s); }
    }
    forall hold: nat ensures Refuses(tab, 1, hold) { assert Low(hold, 1) < 2; }
  }

  lemma RootIs(lens: seq<int>, bits: nat, r: nat)
    requires Lengths(lens)
    requires Shortest(lens) <= Longest(lens)
    requires r == if (if bits > Longest(lens) then Longest(lens) else bits) < Shortest(lens) then Shortest(lens)
                  else if bits > Longest(lens) then Longest(lens) else bits
    ensures r == RootBits(lens, bits) && Shortest(lens) <= r <= Longest(lens)
  {
    hide Longest, Shortest;
  }
}
