/** Sizing the sub-tables: looking ahead in the length counts finds the longest code under an entry. */
module TableSizing {
  import opened Bits
  import opened BitFields
  import opened Buckets
  import opened CanonicalCodes
  import opened ReversedBits
  import opened DecodeTables
  import opened TableFilling

  /** A code longer than the root under entry b. */
  ghost predicate Under(lens: seq<int>, root: nat, b: nat, s: int)
    requires root <= MAXBITS
  {
    0 <= s < |lens| && root < lens[s] <= MAXBITS && Block(lens, root, s) == b
  }

  lemma {:induction false} BlockBitsBound(lens: seq<int>, root: nat, b: nat, n: nat, s: int)
    requires root <= MAXBITS && n <= |lens| && s < n && Under(lens, root, b, s)
    ensures lens[s] <= root + BlockBits(lens, root, b, n)
  {
    hide Block;
    if s < n - 1 { BlockBitsBound(lens, root, b, n - 1, s); }
  }

  lemma {:induction false} BlockBitsAtMost(lens: seq<int>, root: nat, b: nat, n: nat, m: nat)
    requires root <= MAXBITS && n <= |lens|
    requires forall s | Under(lens, root, b, s) :: lens[s] <= root + m
    ensures BlockBits(lens, root, b, n) <= m
  {
    hide Block;
    if n > 0 {
      BlockBitsAtMost(lens, root, b, n - 1, m);
      if root < lens[n - 1] <= MAXBITS && Block(lens, root, n - 1) == b { assert Under(lens, root, b, n - 1); }
    }
  }

  lemma {:induction false} NoSubTables(lens: seq<int>, root: nat, b: nat)
    requires root <= MAXBITS
    requires forall c: nat, s | c < b :: !Under(lens, root, c, s)
    ensures SubTables(lens, root, b) == 0
  {
    hide Under;
    if b > 0 {
      NoSubTables(lens, root, b - 1);
      BlockBitsAtMost(lens, root, b - 1, |lens|, 0);
    }
  }

  lemma {:induction false} SubTablesMonotonic(lens: seq<int>, root: nat, b: nat, c: nat)
    requires root <= MAXBITS && b <= c
    ensures SubTables(lens, root, b) <= SubTables(lens, root, c)
    decreases c
  {
    hide BlockBits, Pow2;
    if b < c { SubTablesMonotonic(lens, root, b, c - 1); }
  }

  // ---- the search for the size ----

  /** The counts of what has not been entered yet: the remaining codes of length len, all longer ones. */
  ghost predicate Counts(count: seq<int>, lens: seq<int>, i: int, len: int) {
    && |count| == MAXBITS + 1 && 1 <= len <= MAXBITS
    && count[len] == Start(lens, len + 1) - Start(lens, 1) - i
    && forall l | len < l <= MAXBITS :: count[l] == multiset(lens)[l]
  }

  /** The leaf beyond the codes that are shorter than l or have been entered, when t is next. */
  ghost function Reached(lens: seq<int>, t: int, l: int): nat
    requires 0 <= t < |lens| && 0 < lens[t] <= l <= MAXBITS
  {
    if l == lens[t] then FirstLeaf(lens, t) else Leaves(lens, l - 1)
  }

  /** What the counts of one length add. */
  lemma CountAdds(count: seq<int>, lens: seq<int>, t: int, l: int)
    requires Lengths(lens) && IsSymbol(lens, t) && lens[t] <= l <= MAXBITS
    requires Counts(count, lens, Rank(lens, t), lens[t])
    ensures count[l] >= 0 && Reached(lens, t, l) + count[l] * Share(l) == Leaves(lens, l)
  {
    hide Leaves, FirstLeaf, Count, Start;
    if l == lens[t] {
      LeafBetween(lens, t);
      PlacesInBucket(lens, t);
      StartStep(lens, l);
      LeavesStep(lens, l - 1);
      var c, all := Count(lens, t, l), multiset(lens)[l];
      assert count[l] == all - c;
      Difference(all, c, Share(l));
    } else {
      LeavesStep(lens, l - 1);
    }
  }

  lemma Difference(a: nat, b: nat, p: nat)
    ensures a * p == b * p + (a - b) * p
  {
  }

  /** left counts the strings of length l under entry b that no code has taken so far. */
  ghost predicate Sizing(lens: seq<int>, root: nat, b: nat, t: int, l: int, left: int) {
    && Lengths(lens) && IsSymbol(lens, t) && root <= MAXBITS && root < lens[t] <= l <= MAXBITS
    && Block(lens, root, t) == b && FirstLeaf(lens, t) == b * Pow2(MAXBITS - root)
    && left * Share(l) == (b + 1) * Pow2(MAXBITS - root) - Reached(lens, t, l)
    && left > 0
  }

  lemma SizingStart(lens: seq<int>, root: nat, t: int)
    requires Lengths(lens) && IsSymbol(lens, t) && root < lens[t]
    requires FirstLeaf(lens, t) == Block(lens, root, t) * Pow2(MAXBITS - root)
    ensures Sizing(lens, root, Block(lens, root, t), t, lens[t], Pow2(lens[t] - root))
  {
    hide FirstLeaf, Block, Pow2;
    Pow2Add(lens[t] - root, MAXBITS - lens[t]);
    AddOne(Block(lens, root, t), Pow2(MAXBITS - root));
  }

  /** Taking away the codes of length l. */
  lemma SizingStep(count: seq<int>, lens: seq<int>, root: nat, b: nat, t: int, l: int, left: int)
    requires Sizing(lens, root, b, t, l, left) && Counts(count, lens, Rank(lens, t), lens[t])
    ensures left - count[l] <= 0 ==> Leaves(lens, l) >= (b + 1) * Pow2(MAXBITS - root)
    ensures left - count[l] > 0 && l < MAXBITS ==> Sizing(lens, root, b, t, l + 1, 2 * (left - count[l]))
  {
    hide FirstLeaf, Block, Pow2, Leaves, Rank;
    CountAdds(count, lens, t, l);
    var rest := left - count[l];
    Minus(left, count[l], Share(l));
    assert rest * Share(l) == (b + 1) * Pow2(MAXBITS - root) - Leaves(lens, l);
    NotPositive(rest, Share(l));
    if l < MAXBITS {
      Pow2Step(MAXBITS - l - 1);
      Doubled(rest, Pow2(MAXBITS - l - 1));
    }
  }

  lemma Minus(a: int, b: int, p: int)
    ensures (a - b) * p == a * p - b * p
  {
  }

  lemma NotPositive(a: int, p: nat)
    ensures a <= 0 ==> a * p <= 0
  {
  }

  lemma Doubled(a: int, p: int)
    ensures a * (2 * p) == 2 * a * p
  {
  }

  /** The search stops at the longest code under the entry. */
  lemma Sized(lens: seq<int>, root: nat, b: nat, t: int, l: int, left: int)
    requires Sizing(lens, root, b, t, l, left) && Taken(lens, MAXBITS) == Pow2(MAXBITS)
    requires l == Longest(lens) || Leaves(lens, l) >= (b + 1) * Pow2(MAXBITS - root)
    ensures BlockBits(lens, root, b, |lens|) == l - root
  {
    hide FirstLeaf, Block, Pow2, Leaves, Reached, Taken;
    forall s | Under(lens, root, b, s) ensures lens[s] <= l {
      NotTooLong(lens, root, b, l, s);
    }
    BlockBitsAtMost(lens, root, b, |lens|, l - root);
    var u := t;
    if l > lens[t] { u := LongUnder(lens, root, b, t, l, left); }
    BlockBitsBound(lens, root, b, |lens|, u);
  }

  lemma {:induction false} LongestCovers(lens: seq<int>, s: int)
    requires 0 <= s < |lens|
    ensures lens[s] <= Longest(lens)
  {
    if s < |lens| - 1 { LongestCovers(lens[..|lens| - 1], s); }
  }

  lemma NotTooLong(lens: seq<int>, root: nat, b: nat, l: int, s: int)
    requires Lengths(lens) && root <= MAXBITS && 0 < l && Under(lens, root, b, s)
    requires l == Longest(lens) || (l <= MAXBITS && Leaves(lens, l) >= (b + 1) * Pow2(MAXBITS - root))
    ensures lens[s] <= l
  {
    hide FirstLeaf, Pow2, Leaves, Longest;
    LongestCovers(lens, s);
    if lens[s] > l {
      LeafBetween(lens, s);
      LeavesMonotonic(lens, l, lens[s] - 1);
      BlockIs(lens, root, s);
      InSlice(FirstLeaf(lens, s), b, Pow2(MAXBITS - root));
      AddOne(b, Pow2(MAXBITS - root));
      assert false;
    }
  }

  /** While strings are left, some code of the next length or longer is under the entry. */
  lemma LongUnder(lens: seq<int>, root: nat, b: nat, t: int, l: int, left: int) returns (u: int)
    requires Sizing(lens, root, b, t, l, left) && Taken(lens, MAXBITS) == Pow2(MAXBITS) && l > lens[t]
    ensures Under(lens, root, b, u) && lens[u] >= l
  {
    hide FirstLeaf, Block, Pow2, Leaves, Taken, Reverse, Starts, Share;
    var x, big := Leaves(lens, l - 1), Pow2(MAXBITS - root);
    Positive(left, Share(l));
    assert x < (b + 1) * big;
    LeafBetween(lens, t);
    LeavesMonotonic(lens, lens[t], l - 1);
    EntryEnds(lens, root, t);
    ReverseTwice(x, MAXBITS);
    var hold := Reverse(x, MAXBITS);
    u := SomeCode(lens, hold);
    StartsHere(lens, u, hold);
    StartsIsLeaf(lens, u, hold);
    LeafBetween(lens, u);
    if lens[u] < l { LeavesMonotonic(lens, lens[u], l - 1); assert false; }
    LeavesMonotonic(lens, lens[t], lens[u] - 1);
    AddOne(b, big);
    InSlice(FirstLeaf(lens, u), b, big);
    BlockIs(lens, root, u);
  }

  lemma StartsHere(lens: seq<int>, u: int, hold: nat)
    requires Starts(lens, u, hold)
    ensures IsSymbol(lens, u)
  {
  }

  lemma BlockIs(lens: seq<int>, root: nat, u: int)
    requires root <= MAXBITS && 0 <= u < |lens| && 0 < lens[u] <= MAXBITS
    ensures Block(lens, root, u) == FirstLeaf(lens, u) / Pow2(MAXBITS - root)
  {
  }

  lemma Positive(a: nat, p: nat)
    requires a > 0
    ensures a * p >= p
  {
    NextMultiple(0, a, p);
  }

  /** The leaves under an entry end within the leaves. */
  lemma EntryEnds(lens: seq<int>, root: nat, t: int)
    requires Lengths(lens) && NotOversubscribed(lens) && IsSymbol(lens, t) && root <= MAXBITS
    ensures Block(lens, root, t) < Pow2(root)
    ensures (Block(lens, root, t) + 1) * Pow2(MAXBITS - root) <= Pow2(MAXBITS)
  {
    hide FirstLeaf, Pow2, Reverse, HuffOf;
    LowIsBlock(lens, root, t);
    Pow2Add(root, MAXBITS - root);
    var b, big := Block(lens, root, t), Pow2(MAXBITS - root);
    AddOne(b, big);
    NextMultiple(b, Pow2(root), big);
  }

  /** The index bits of the sub-table under the entry of t, the next code to enter. */
  method SizeTable(count: array<int>, len: int, root: nat, max: int, ghost lens: seq<int>, ghost t: int)
    returns (curr: nat)
    requires Lengths(lens) && IsSymbol(lens, t) && root < len == lens[t] && max == Longest(lens)
    requires Counts(count[..], lens, Rank(lens, t), len)
    requires FirstLeaf(lens, t) == Block(lens, root, t) * Pow2(MAXBITS - root) && Taken(lens, MAXBITS) == Pow2(MAXBITS)
    ensures 0 < curr <= MAXBITS - root && len <= root + curr
            && curr == BlockBits(lens, root, Block(lens, root, t), |lens|)
  {
    hide FirstLeaf, Block, Pow2, Leaves, Taken, Rank, Sizing, Longest;
    ghost var b := Block(lens, root, t);
    LongestCovers(lens, t);
    LongestBound(lens, MAXBITS);
    SizingStart(lens, root, t);
    curr := len - root;
    var left: int := Pow2(curr);
    while curr + root < max
      invariant len <= curr + root <= max
      invariant Sizing(lens, root, b, t, curr + root, left)
    {
      SizingStep(count[..], lens, root, b, t, curr + root, left);
      left := left - count[curr + root];
      if left <= 0 {
        Sized(lens, root, b, t, curr + root, left + count[curr + root]);
        return;
      }
      curr := curr + 1;
      left := left * 2;
    }
    Sized(lens, root, b, t, curr + root, left);
  }
}
