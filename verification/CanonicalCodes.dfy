/** The canonical codes of the deflate format (section 3.2.2 of RFC 1951), whose bits arrive with the
    most significant bit first in a stream that is otherwise read from the least significant bit. */
module CanonicalCodes {
  import opened Permutations
  import opened Bits
  import opened BitFields
  import opened ReversedBits
  import opened Buckets

  const MAXBITS := 15

  /** Code lengths; length 0 marks a symbol that does not occur. */
  ghost predicate Lengths(lens: seq<int>) {
    forall s | 0 <= s < |lens| :: 0 <= lens[s] <= MAXBITS
  }

  // ---- the code ----

  /** What follows the last code of length n: the codes of each length begin with twice what follows
      the codes that are one bit shorter. */
  ghost function Taken(lens: seq<int>, n: nat): nat {
    if n == 0 then 0 else 2 * Taken(lens, n - 1) + multiset(lens)[n as int]
  }

  /** The code of symbol s: codes of one length are consecutive, in symbol order. */
  ghost function CodeOf(lens: seq<int>, s: int): nat
    requires 0 <= s < |lens| && lens[s] > 0
  {
    2 * Taken(lens, lens[s] - 1) + Count(lens, s, lens[s])
  }

  /** A code owns all the strings of MAXBITS bits that begin with it; this is the first of them... */
  ghost function FirstLeaf(lens: seq<int>, s: int): nat
    requires 0 <= s < |lens| && 0 < lens[s] <= MAXBITS
  {
    CodeOf(lens, s) * Pow2(MAXBITS - lens[s])
  }

  /** ... and this how many there are. */
  ghost function Share(len: int): (r: nat)
    ensures 0 < len <= MAXBITS ==> r > 0
  {
    if 0 < len <= MAXBITS then Pow2(MAXBITS - len) else 0
  }

  /** The first leaf beyond the codes of length at most n. */
  ghost function Leaves(lens: seq<int>, n: nat): nat
    requires n <= MAXBITS
  {
    Taken(lens, n) * Pow2(MAXBITS - n)
  }

  lemma LeavesStep(lens: seq<int>, n: nat)
    requires n < MAXBITS
    ensures Leaves(lens, n + 1) == Leaves(lens, n) + multiset(lens)[n + 1] * Pow2(MAXBITS - n - 1)
  {
    hide Pow2;
    Pow2Step(MAXBITS - n - 1);
    Distribute(Taken(lens, n), multiset(lens)[n + 1], Pow2(MAXBITS - n - 1));
  }

  lemma Distribute(t: nat, c: nat, p: nat)
    ensures (2 * t + c) * p == t * (2 * p) + c * p
  {
  }

  lemma {:induction false} LeavesMonotonic(lens: seq<int>, m: nat, n: nat)
    requires m <= n <= MAXBITS
    ensures Leaves(lens, m) <= Leaves(lens, n)
    decreases n
  {
    hide Leaves, Pow2;
    if m < n {
      LeavesMonotonic(lens, m, n - 1);
      LeavesStep(lens, n - 1);
      Product(multiset(lens)[n], Pow2(MAXBITS - n));
    }
  }

  /** A code lies between the shorter codes and the end of its own length. */
  lemma LeafBetween(lens: seq<int>, s: int)
    requires 0 <= s < |lens| && 0 < lens[s] <= MAXBITS
    ensures FirstLeaf(lens, s) == Leaves(lens, lens[s] - 1) + Count(lens, s, lens[s]) * Share(lens[s])
    ensures Leaves(lens, lens[s] - 1) <= FirstLeaf(lens, s)
    ensures FirstLeaf(lens, s) + Share(lens[s]) <= Leaves(lens, lens[s])
  {
    hide Pow2, Count, Taken;
    var l, p := lens[s], Share(lens[s]);
    Pow2Step(MAXBITS - l);
    Distribute(Taken(lens, l - 1), Count(lens, s, l), p);
    CountStep(lens, s, l);
    CountMonotonic(lens, s + 1, |lens|, l);
    CountAll(lens, l);
    LeavesStep(lens, l - 1);
    Product(Count(lens, s, l), p);
    NextMultiple(Count(lens, s, l), multiset(lens)[l], p);
  }

  // ---- symbols in the order of their codes ----

  /** Position of s in the list of the symbols that occur, sorted by length and then by symbol. */
  ghost function Rank(lens: seq<int>, s: int): int
    requires 0 <= s < |lens| && lens[s] >= 0
  {
    UpPlace(lens, s) - Start(lens, 1)
  }

  /** How many symbols occur. */
  ghost function Occurring(lens: seq<int>): int {
    |lens| - Start(lens, 1)
  }

  lemma RankInRange(lens: seq<int>, s: int)
    requires Lengths(lens) && 0 <= s < |lens| && lens[s] > 0
    ensures 0 <= Rank(lens, s) < Occurring(lens)
  {
    hide UpPlace, Start;
    PlacesInBucket(lens, s);
    PlaceInRange(lens, MAXBITS + 1, lens[s], UpPlace(lens, s));
    StartMonotonic(lens, 1, lens[s]);
  }

  lemma RankDiffers(lens: seq<int>, s: int, t: int)
    requires Lengths(lens) && 0 <= s < |lens| && 0 <= t < |lens| && s != t
    ensures Rank(lens, s) != Rank(lens, t)
  {
    if s < t { PlacesDiffer(lens, s, t); } else { PlacesDiffer(lens, t, s); }
  }

  lemma SymbolOfRank(lens: seq<int>, i: int) returns (s: int)
    requires Lengths(lens) && 0 <= i < Occurring(lens)
    ensures 0 <= s < |lens| && lens[s] > 0 && Rank(lens, s) == i
  {
    hide UpPlace, Start;
    var place := seq(|lens|, k requires 0 <= k < |lens| => UpPlace(lens, k));
    forall k | 0 <= k < |lens| ensures 0 <= place[k] < |lens| {
      PlacesInBucket(lens, k);
      PlaceInRange(lens, MAXBITS + 1, lens[k], UpPlace(lens, k));
    }
    forall a, b | 0 <= a < b < |lens| ensures place[a] != place[b] { PlacesDiffer(lens, a, b); }
    s := PermutationIndex(place, |lens|, i + Start(lens, 1));
    if lens[s] == 0 { PlacesInBucket(lens, s); }
  }

  /** Ranks order by length, and within a length by the number of earlier symbols. */
  lemma RankOrder(lens: seq<int>, s: int, t: int)
    requires Lengths(lens) && 0 <= s < |lens| && 0 <= t < |lens| && lens[s] > 0 && lens[t] > 0
    requires Rank(lens, s) < Rank(lens, t)
    ensures lens[s] <= lens[t]
    ensures lens[s] == lens[t] ==> Count(lens, t, lens[t]) - Count(lens, s, lens[s]) == Rank(lens, t) - Rank(lens, s)
  {
    hide Start, Count;
    PlacesInBucket(lens, s);
    PlacesInBucket(lens, t);
    BucketOrder(lens, lens[s], UpPlace(lens, s), lens[t], UpPlace(lens, t));
  }

  /** The codes tile the leaves: each begins where the one before it ends... */
  lemma NextLeaf(lens: seq<int>, s: int, t: int)
    requires Lengths(lens) && 0 <= s < |lens| && 0 <= t < |lens| && lens[s] > 0 && lens[t] > 0
    requires Rank(lens, t) == Rank(lens, s) + 1
    ensures lens[s] <= lens[t]
    ensures FirstLeaf(lens, t) == FirstLeaf(lens, s) + Share(lens[s])
  {
    hide Start, Count, Leaves, FirstLeaf, Share;
    RankOrder(lens, s, t);
    LeafBetween(lens, s);
    LeafBetween(lens, t);
    if lens[s] == lens[t] {
      AddOne(Count(lens, s, lens[s]), Share(lens[s]));
    } else {
      PlacesInBucket(lens, s);
      PlacesInBucket(lens, t);
      StartMonotonic(lens, lens[s] + 1, lens[t]);
      LastOfLength(lens, s);
      EmptyLengths(lens, lens[s], lens[t] - 1);
    }
  }

  /** The last code of its length ends where its length does. */
  lemma LastOfLength(lens: seq<int>, s: int)
    requires Lengths(lens) && 0 <= s < |lens| && lens[s] > 0
    requires UpPlace(lens, s) == Start(lens, lens[s] + 1) - 1
    ensures FirstLeaf(lens, s) + Share(lens[s]) == Leaves(lens, lens[s])
  {
    hide Start, Count, Leaves, FirstLeaf;
    LeafBetween(lens, s);
    LeavesStep(lens, lens[s] - 1);
    StartStep(lens, lens[s]);
    AddOne(Count(lens, s, lens[s]), Share(lens[s]));
  }

  lemma {:induction false} EmptyLengths(lens: seq<int>, m: nat, n: nat)
    requires m <= n <= MAXBITS && Start(lens, m + 1) == Start(lens, n + 1)
    ensures Leaves(lens, m) == Leaves(lens, n)
    decreases n
  {
    hide Start, Leaves;
    if m < n {
      StartMonotonic(lens, m + 1, n);
      StartStep(lens, n);
      EmptyLengths(lens, m, n - 1);
      LeavesStep(lens, n - 1);
    }
  }

  /** ... the first at the first leaf ... */
  lemma RankZero(lens: seq<int>, s: int)
    requires Lengths(lens) && 0 <= s < |lens| && lens[s] > 0 && Rank(lens, s) == 0
    ensures FirstLeaf(lens, s) == 0
  {
    hide Start, Count, Leaves, FirstLeaf;
    PlacesInBucket(lens, s);
    StartMonotonic(lens, 1, lens[s]);
    LeafBetween(lens, s);
    EmptyLengths(lens, 0, lens[s] - 1);
    assert Leaves(lens, 0) == 0 by { NoLeaves(lens); }
  }

  lemma NoLeaves(lens: seq<int>)
    ensures Leaves(lens, 0) == 0
  {
  }

  /** ... and the last ends where all the codes end. */
  lemma RankLast(lens: seq<int>, s: int)
    requires Lengths(lens) && 0 <= s < |lens| && lens[s] > 0 && Rank(lens, s) == Occurring(lens) - 1
    ensures FirstLeaf(lens, s) + Share(lens[s]) == Taken(lens, MAXBITS)
  {
    hide Start, Count, FirstLeaf, Leaves;
    PlacesInBucket(lens, s);
    StartTotal(lens, MAXBITS + 1);
    StartMonotonic(lens, lens[s] + 1, MAXBITS + 1);
    LastOfLength(lens, s);
    EmptyLengths(lens, lens[s], MAXBITS);
    AllLeaves(lens);
  }

  lemma AllLeaves(lens: seq<int>)
    ensures Leaves(lens, MAXBITS) == Taken(lens, MAXBITS)
  {
    hide Taken;
    Pow2Of1();
  }

  /** Codes of smaller rank end before codes of greater rank begin. */
  lemma LeafOrder(lens: seq<int>, s: int, t: int)
    requires Lengths(lens) && 0 <= s < |lens| && 0 <= t < |lens| && lens[s] > 0 && lens[t] > 0
    requires Rank(lens, s) < Rank(lens, t)
    ensures FirstLeaf(lens, s) + Share(lens[s]) <= FirstLeaf(lens, t)
  {
    hide Start, Count, Leaves, FirstLeaf, Share, Rank;
    RankOrder(lens, s, t);
    LeafBetween(lens, s);
    LeafBetween(lens, t);
    if lens[s] == lens[t] {
      NextMultiple(Count(lens, s, lens[s]), Count(lens, t, lens[t]), Share(lens[s]));
    } else {
      LeavesMonotonic(lens, lens[s], lens[t] - 1);
    }
  }

  // ---- how a code shows in the stream ----

  /** The leaf that the next MAXBITS bits of a stream lead to; bits are taken from the low end. */
  ghost function Leaf(hold: nat): nat { Reverse(hold, MAXBITS) }

  /** The stream begins with the code of s. */
  ghost predicate Starts(lens: seq<int>, s: int, hold: nat) {
    && 0 <= s < |lens| && lens[s] > 0
    && Low(hold, lens[s]) == Reverse(CodeOf(lens, s), lens[s])
  }

  /** The stream begins with some code. */
  ghost predicate HasCode(lens: seq<int>, hold: nat) {
    exists s :: Starts(lens, s, hold)
  }

  /** The lengths leave every code its place. */
  ghost predicate NotOversubscribed(lens: seq<int>) {
    Taken(lens, MAXBITS) <= Pow2(MAXBITS)
  }

  lemma CodeFits(lens: seq<int>, s: int)
    requires Lengths(lens) && NotOversubscribed(lens) && 0 <= s < |lens| && lens[s] > 0
    ensures CodeOf(lens, s) < Pow2(lens[s])
    ensures FirstLeaf(lens, s) + Share(lens[s]) <= Pow2(MAXBITS)
  {
    hide Leaves, CodeOf, Taken, Pow2;
    LeafBetween(lens, s);
    LeavesMonotonic(lens, lens[s], MAXBITS);
    AllLeaves(lens);
    Pow2Add(lens[s], MAXBITS - lens[s]);
    AddOne(CodeOf(lens, s), Share(lens[s]));
    Cancel(CodeOf(lens, s) + 1, Pow2(lens[s]), Share(lens[s]));
  }

  lemma Cancel(a: nat, b: nat, p: nat)
    requires p > 0 && a * p <= b * p
    ensures a <= b
  {
  }

  /** A stream begins with the code of s exactly when its leaf belongs to s. */
  lemma StartsIsLeaf(lens: seq<int>, s: int, hold: nat)
    requires Lengths(lens) && NotOversubscribed(lens) && 0 <= s < |lens| && lens[s] > 0
    ensures Starts(lens, s, hold) <==> FirstLeaf(lens, s) <= Leaf(hold) < FirstLeaf(lens, s) + Share(lens[s])
  {
    hide CodeOf, Pow2, Reverse;
    CodeFits(lens, s);
    var l, p, c := lens[s], Share(lens[s]), CodeOf(lens, s);
    ReverseTop(hold, l, MAXBITS);
    ReverseTwice(hold % Pow2(l), l);
    ReverseTwice(c, l);
    InSlice(Leaf(hold), c, p);
  }

  lemma InSlice(x: nat, c: nat, p: nat)
    requires p > 0
    ensures x / p == c <==> c * p <= x < c * p + p
  {
    DivModIs(x, p);
    if c * p <= x < c * p + p { QuotientIs(x, p, c, x - c * p); }
  }

  /** No code begins another: a stream begins with one code at most... */
  lemma OneCode(lens: seq<int>, s: int, t: int, hold: nat)
    requires Lengths(lens) && NotOversubscribed(lens)
    requires Starts(lens, s, hold) && Starts(lens, t, hold)
    ensures s == t
  {
    hide FirstLeaf, Leaf, Share, Rank, CodeOf;
    StartsIsLeaf(lens, s, hold);
    StartsIsLeaf(lens, t, hold);
    if s != t {
      RankDiffers(lens, s, t);
      if Rank(lens, s) < Rank(lens, t) { LeafOrder(lens, s, t); } else { LeafOrder(lens, t, s); }
    }
  }

  /** ... and with one at least, if its leaf is taken. */
  lemma SomeCode(lens: seq<int>, hold: nat) returns (s: int)
    requires Lengths(lens) && NotOversubscribed(lens) && Leaf(hold) < Taken(lens, MAXBITS)
    ensures Starts(lens, s, hold)
  {
    hide FirstLeaf, Leaf, Share, Rank, Occurring, Starts, Taken;
    assert Occurring(lens) > 0 by { if Occurring(lens) <= 0 { NothingTaken(lens); } }
    s := SymbolOfRank(lens, 0);
    RankZero(lens, s);
    for i := 0 to Occurring(lens)
      invariant 0 <= s < |lens| && lens[s] > 0
      invariant i < Occurring(lens) ==> Rank(lens, s) == i && FirstLeaf(lens, s) <= Leaf(hold)
      invariant i == Occurring(lens) ==> Taken(lens, MAXBITS) <= Leaf(hold)
    {
      StartsIsLeaf(lens, s, hold);
      if Leaf(hold) < FirstLeaf(lens, s) + Share(lens[s]) { return; }
      if i + 1 < Occurring(lens) {
        var t := SymbolOfRank(lens, i + 1);
        NextLeaf(lens, s, t);
        s := t;
      } else {
        RankLast(lens, s);
      }
    }
    assert false;
  }

  lemma NothingTaken(lens: seq<int>)
    requires Lengths(lens) && Occurring(lens) <= 0
    ensures Taken(lens, MAXBITS) == 0
  {
    hide Start, Leaves, Taken;
    StartTotal(lens, MAXBITS + 1);
    StartMonotonic(lens, 1, MAXBITS + 1);
    EmptyLengths(lens, 0, MAXBITS);
    NoLeaves(lens);
    AllLeaves(lens);
  }

  // ---- Kraft's inequality ----

  /** The leaves that all the codes together ask for. */
  ghost function Demand(lens: seq<int>): nat {
    if lens == [] then 0 else Demand(lens[..|lens| - 1]) + Share(lens[|lens| - 1])
  }

  lemma {:induction false} LeavesAppend(lens: seq<int>, len: int, n: nat)
    requires n <= MAXBITS
    ensures Leaves(lens + [len], n) == Leaves(lens, n) + if 0 < len <= n then Share(len) else 0
    decreases n
  {
    hide Pow2, Leaves;
    if n == 0 {
      NoLeaves(lens);
      NoLeaves(lens + [len]);
    } else {
      LeavesAppend(lens, len, n - 1);
      LeavesStep(lens, n - 1);
      LeavesStep(lens + [len], n - 1);
      assert multiset(lens + [len])[n as int] == multiset(lens)[n as int] + if len == n then 1 else 0;
      AddOne(multiset(lens)[n as int], Pow2(MAXBITS - n));
    }
  }

  /** Kraft's sum, in units of 2^-MAXBITS, is what the canonical assignment takes. */
  lemma {:induction false} DemandIsTaken(lens: seq<int>)
    ensures Demand(lens) == Taken(lens, MAXBITS)
  {
    hide Taken, Leaves, Share;
    AllLeaves(lens);
    if lens == [] {
      TakenEmpty(MAXBITS);
    } else {
      var front, last := lens[..|lens| - 1], lens[|lens| - 1];
      assert lens == front + [last];
      DemandIsTaken(front);
      LeavesAppend(front, last, MAXBITS);
      AllLeaves(front);
      if !(0 < last <= MAXBITS) { OutsideShare(last); }
    }
  }

  lemma OutsideShare(len: int)
    requires !(0 < len <= MAXBITS)
    ensures Share(len) == 0
  {
  }

  lemma {:induction false} TakenEmpty(n: nat)
    ensures Taken([], n) == 0
  {
    if n > 0 { TakenEmpty(n - 1); }
  }
}
