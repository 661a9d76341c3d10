/** Canonical codes: code assignment, the decoder's tables, and the decoding loop. */
module Huffman {
  import opened Permutations
  import opened Buckets
  import opened Bits
  import opened BitStream

  const BZ_MAX_ALPHA_SIZE := 258
  const BZ_MAX_CODE_LEN := 23
  const LONGEST_CODE := 20

  /** Code lengths as the format allows them. */
  ghost predicate Lengths(lens: seq<int>) {
    0 < |lens| <= BZ_MAX_ALPHA_SIZE && forall i | 0 <= i < |lens| :: 1 <= lens[i] <= LONGEST_CODE
  }

  /** The first code of length n: twice whatever follows the last code that is one shorter. */
  ghost function First(lens: seq<int>, n: nat): nat
    decreases n, 0
  {
    if n == 0 then 0 else 2 * Past(lens, n - 1)
  }

  /** What follows the last code of length n. */
  ghost function Past(lens: seq<int>, n: nat): nat
    decreases n, 1
  {
    First(lens, n) + multiset(lens)[n as int]
  }

  /** Codes of one length are consecutive, in symbol order. */
  ghost function Code(lens: seq<int>, i: int): nat
    requires 0 <= i < |lens| && lens[i] >= 0
  {
    First(lens, lens[i]) + Count(lens, i, lens[i])
  }

  ghost function CodeBits(lens: seq<int>, i: int): (r: seq<bool>)
    requires 0 <= i < |lens| && lens[i] >= 0
    ensures |r| == lens[i]
  {
    ToBits(Code(lens, i), lens[i])
  }

  lemma CodeBelowPast(lens: seq<int>, i: int)
    requires 0 <= i < |lens| && lens[i] >= 0
    ensures First(lens, lens[i]) <= Code(lens, i) < Past(lens, lens[i])
  {
    hide First, Count;
    CountStep(lens, i, lens[i]);
    CountMonotonic(lens, i + 1, |lens|, lens[i]);
    CountAll(lens, lens[i]);
  }

  /** Longer codes start beyond everything that shorter ones occupy. */
  lemma {:induction false} FirstGrows(lens: seq<int>, n: nat, m: nat)
    requires n < m
    ensures First(lens, m) >= Past(lens, n) * Pow2(m - n)
    decreases m - n
  {
    hide Pow2;
    Pow2Of1();
    if n + 1 < m {
      FirstGrows(lens, n, m - 1);
      assert Pow2(m - n) == 2 * Pow2(m - 1 - n) by { Pow2Step(m - 1 - n); }
      Regroup(Past(lens, n), Pow2(m - 1 - n));
    }
  }

  // ---- Kraft's inequality ----

  /** The share of all strings of length top that the codes take up. */
  ghost function Kraft(lens: seq<int>, top: nat): nat {
    if lens == [] then 0 else Kraft(lens[..|lens| - 1], top) + Share(lens[|lens| - 1], top)
  }

  ghost function Share(len: int, top: nat): nat {
    if 0 <= len <= top then Pow2(top - len) else 0
  }

  /** The share of the codes of length at most n. */
  ghost function KraftUpTo(lens: seq<int>, n: nat, top: nat): nat
    requires n <= top
  {
    multiset(lens)[n as int] * Pow2(top - n) + if n == 0 then 0 else KraftUpTo(lens, n - 1, top)
  }

  lemma {:induction false} KraftUpToAppend(lens: seq<int>, len: int, n: nat, top: nat)
    requires n <= top
    ensures KraftUpTo(lens + [len], n, top) == KraftUpTo(lens, n, top) + if 0 <= len <= n then Pow2(top - len) else 0
    decreases n
  {
    hide Pow2;
    if n > 0 { KraftUpToAppend(lens, len, n - 1, top); }
    assert multiset(lens + [len]) == multiset(lens) + multiset{len};
    if len == n { OneMore(multiset(lens)[len], Pow2(top - n)); }
  }

  lemma {:induction false} KraftUpToEmpty(n: nat, top: nat)
    requires n <= top
    ensures KraftUpTo([], n, top) == 0
  {
    hide Pow2;
    if n > 0 { KraftUpToEmpty(n - 1, top); }
  }

  /** Counting by symbols and counting by lengths agree. */
  lemma {:induction false} KraftByLength(lens: seq<int>, top: nat)
    ensures KraftUpTo(lens, top, top) == Kraft(lens, top)
  {
    if lens == [] {
      KraftUpToEmpty(top, top);
    } else {
      var front, last := lens[..|lens| - 1], lens[|lens| - 1];
      KraftByLength(front, top);
      KraftUpToAppend(front, last, top, top);
      assert lens == front + [last];
    }
  }

  /** The codes of length at most n fill exactly the strings below Past. */
  lemma {:induction false} PastIsShare(lens: seq<int>, n: nat, top: nat)
    requires n <= top
    ensures Past(lens, n) * Pow2(top - n) == KraftUpTo(lens, n, top)
    decreases n
  {
    hide Pow2;
    var q := Pow2(top - n);
    if n > 0 {
      PastIsShare(lens, n - 1, top);
      Pow2Step(top - n);
      Regroup(Past(lens, n - 1), q);
      assert 2 * (Past(lens, n - 1) * q) == (2 * Past(lens, n - 1)) * q by { Regroup2(Past(lens, n - 1), q); }
      AddTimes(First(lens, n), multiset(lens)[n as int], q);
    } else {
      AddTimes(First(lens, n), multiset(lens)[n as int], q);
      ZeroTimes(q);
    }
  }

  lemma ZeroTimes(q: int)
    ensures 0 * q == 0
  {
  }

  lemma Regroup2(h: int, p: int)
    ensures 2 * (h * p) == (2 * h) * p
  {
  }

  lemma AddTimes(x: int, y: int, q: int)
    ensures (x + y) * q == x * q + y * q
  {
  }

  lemma {:induction false} KraftUpToMonotonic(lens: seq<int>, n: nat, m: nat, top: nat)
    requires n <= m <= top
    ensures KraftUpTo(lens, n, top) <= KraftUpTo(lens, m, top)
    decreases m
  {
    hide Pow2;
    if n < m { KraftUpToMonotonic(lens, n, m - 1, top); }
  }

  /** Kraft's inequality: every code fits into its length. */
  ghost predicate CodesFit(lens: seq<int>) {
    Kraft(lens, LONGEST_CODE) <= Pow2(LONGEST_CODE)
  }

  lemma {:induction false} KraftScales(lens: seq<int>, top: nat)
    requires forall i | 0 <= i < |lens| :: 0 <= lens[i] <= top
    ensures Kraft(lens, top + 1) == 2 * Kraft(lens, top)
  {
    if lens != [] { KraftScales(lens[..|lens| - 1], top); }
  }

  /** Kraft's inequality for codes of at most top bits. */
  lemma {:induction false} FitAt(lens: seq<int>, top: nat)
    requires forall i | 0 <= i < |lens| :: 0 <= lens[i] <= top
    requires top <= LONGEST_CODE && Kraft(lens, top) <= Pow2(top)
    ensures CodesFit(lens)
    decreases LONGEST_CODE - top
  {
    hide Kraft, Pow2;
    if top < LONGEST_CODE {
      KraftScales(lens, top);
      Pow2Step(top);
      FitAt(lens, top + 1);
    }
  }

  lemma KraftMeansFit(lens: seq<int>, i: int)
    requires Lengths(lens) && CodesFit(lens) && 0 <= i < |lens|
    ensures Code(lens, i) < Pow2(lens[i])
  {
    hide Pow2, First, KraftUpTo, Kraft, Past, Code;
    var n, top := lens[i], LONGEST_CODE;
    CodeBelowPast(lens, i);
    PastIsShare(lens, n, top);
    KraftUpToMonotonic(lens, n, top, top);
    KraftByLength(lens, top);
    Pow2Add(n, top - n);
    if Past(lens, n) > Pow2(n) {
      ProductOrder(Pow2(n) + 1, Past(lens, n), Pow2(top - n));
      OneMore(Pow2(n), Pow2(top - n));
    }
  }

  /** No code is the beginning of another. */
  lemma PrefixFree(lens: seq<int>, i: int, j: int)
    requires Lengths(lens) && CodesFit(lens)
    requires 0 <= i < |lens| && 0 <= j < |lens| && CodeBits(lens, i) <= CodeBits(lens, j)
    ensures i == j
  {
    hide Pow2, First, Kraft, ToBits, Code, Count, CodesFit, IsTail;
    var d := lens[j] - lens[i];
    KraftMeansFit(lens, i);
    KraftMeansFit(lens, j);
    CodeBelowPast(lens, i);
    CodeBelowPast(lens, j);
    SplitBits(Code(lens, j), lens[i], d);
    assert CodeBits(lens, j)[..lens[i]] == ToBits(Code(lens, j) / Pow2(d), lens[i]);
    assert CodeBits(lens, i) == CodeBits(lens, j)[..lens[i]];
    QuotientBelow(Code(lens, j), lens[i], d);
    ValueToBits(Code(lens, i), lens[i]);
    ValueToBits(Code(lens, j) / Pow2(d), lens[i]);
    assert Code(lens, i) == Code(lens, j) / Pow2(d);
    if d > 0 {
      FirstGrows(lens, lens[i], lens[j]);
      QuotientAtLeast(Code(lens, j), Past(lens, lens[i]), Pow2(d));
    } else {
      Pow2Of1();
      SameCode(lens, i, j);
    }
  }

  lemma QuotientBelow(x: nat, m: nat, d: nat)
    requires x < Pow2(m + d)
    ensures x / Pow2(d) < Pow2(m)
  {
    hide Pow2;
    Pow2Add(m, d);
    QuotientSmall(x, Pow2(d), Pow2(m));
  }

  lemma QuotientAtLeast(x: nat, y: nat, p: nat)
    requires p > 0 && x >= y * p
    ensures x / p >= y
  {
    var q, r := x / p, x % p;
    assert x == p * q + r;
    OneMore(q, p);
    if q < y { ProductOrder(q + 1, y, p); }
  }

  lemma SameCode(lens: seq<int>, i: int, j: int)
    requires 0 <= i < |lens| && 0 <= j < |lens| && lens[i] == lens[j] >= 0 && Code(lens, i) == Code(lens, j)
    ensures i == j
  {
    hide First, Start;
    if i < j { PlacesDiffer(lens, i, j); }
    if j < i { PlacesDiffer(lens, j, i); }
  }

  // ---- assigning codes ----

  /** minLen and maxLen are the extreme lengths. */
  ghost predicate Extremes(lens: seq<int>, minLen: int, maxLen: int) {
    && Lengths(lens)
    && (forall i | 0 <= i < |lens| :: minLen <= lens[i] <= maxLen)
    && minLen in lens && maxLen in lens
  }

  /** The loop with which both sides find the extreme lengths. */
  method FindExtremes(length: array<int>, alphaSize: int) returns (minLen: int, maxLen: int)
    requires 0 < alphaSize <= length.Length && Lengths(length[..alphaSize])
    ensures Extremes(length[..alphaSize], minLen, maxLen)
  {
    minLen, maxLen := 32, 0;
    ghost var lens := length[..alphaSize];
    for i := 0 to alphaSize
      invariant i == 0 ==> minLen == 32 && maxLen == 0
      invariant i > 0 ==> minLen in lens[..i] && maxLen in lens[..i]
      invariant forall j | 0 <= j < i :: minLen <= lens[j] <= maxLen
    {
      assert lens[..i + 1] == lens[..i] + [lens[i]];
      if length[i] > maxLen { maxLen := length[i]; }
      if length[i] < minLen { minLen := length[i]; }
    }
    assert lens[..alphaSize] == lens;
  }

  lemma {:induction false} NothingShorter(lens: seq<int>, minLen: int, n: nat)
    requires forall i | 0 <= i < |lens| :: minLen <= lens[i]
    requires n <= minLen
    ensures First(lens, n) == 0 && Start(lens, n) == 0
  {
    if n > 0 {
      NothingShorter(lens, minLen, n - 1);
      assert n - 1 !in lens;
      assert n - 1 !in multiset(lens);
    }
  }

  /** The symbols that come before symbol i of length n in the order of assignment. */
  ghost predicate Earlier(lens: seq<int>, n: int, i: int, j: int) {
    0 <= j < |lens| && (lens[j] < n || (lens[j] == n && j < i))
  }

  /** BZ2_hbAssignCodes. */
  method AssignCodes(code: array<int>, length: array<int>, minLen: int, maxLen: int, alphaSize: int)
    requires code != length && 0 < alphaSize <= length.Length && alphaSize <= code.Length
    requires Extremes(length[..alphaSize], minLen, maxLen)
    modifies code
    ensures forall i | 0 <= i < alphaSize :: code[i] == Code(length[..alphaSize], i)
  {
    hide First, Count, Past, Start;
    ghost var lens := length[..alphaSize];
    NothingShorter(lens, minLen, minLen);
    var vec := 0;
    for n := minLen to maxLen + 1
      invariant vec == First(lens, n)
      invariant forall j | Earlier(lens, n, 0, j) :: code[j] == Code(lens, j)
    {
      CountNone(lens, n);
      for i := 0 to alphaSize
        invariant vec == First(lens, n) + Count(lens, i, n)
        invariant forall j | Earlier(lens, n, i, j) :: code[j] == Code(lens, j)
      {
        CountStep(lens, i, n);
        if length[i] == n {
          code[i] := vec;
          vec := vec + 1;
        }
      }
      CountAll(lens, n);
      FirstNext(lens, n);
      vec := vec * 2;
    }
  }

  lemma FirstNext(lens: seq<int>, n: nat)
    ensures Past(lens, n) == First(lens, n) + multiset(lens)[n as int]
    ensures First(lens, n + 1) == 2 * Past(lens, n)
  {
  }

  // ---- the decoder's tables ----

  ghost predicate IsPerm(perm: seq<int>, lens: seq<int>)
    requires Lengths(lens)
  {
    forall i | 0 <= i < |lens| :: 0 <= UpPlace(lens, i) < |lens| <= |perm| && perm[UpPlace(lens, i)] == i
  }

  /** limit, base and perm as the decoding loop uses them. */
  ghost predicate IsTables(limit: seq<int>, base: seq<int>, perm: seq<int>, lens: seq<int>, minLen: int, maxLen: int) {
    && Extremes(lens, minLen, maxLen)
    && |limit| == |base| == |perm| == BZ_MAX_ALPHA_SIZE
    && (forall n | minLen <= n <= maxLen :: limit[n] == Past(lens, n) - 1 && base[n] == First(lens, n) - Start(lens, n))
    && (forall n | maxLen < n <= LONGEST_CODE :: limit[n] == 0)
    && IsPerm(perm, lens)
  }

  /** Symbols in the order of their codes: the first loop of BZ2_hbCreateDecodeTables. */
  method FillPerm(perm: array<int>, length: array<int>, minLen: int, maxLen: int, alphaSize: int)
    requires perm != length && 0 < alphaSize <= length.Length && perm.Length == BZ_MAX_ALPHA_SIZE
    requires Extremes(length[..alphaSize], minLen, maxLen)
    modifies perm
    ensures IsPerm(perm[..], length[..alphaSize])
  {
    hide Count, Start, UpPlace;
    ghost var lens := length[..alphaSize];
    NothingShorter(lens, minLen, minLen);
    forall i | 0 <= i < alphaSize ensures 0 <= UpPlace(lens, i) < alphaSize { PlaceFits(lens, i); }
    var pp := 0;
    for n := minLen to maxLen + 1
      invariant pp == Start(lens, n)
      invariant forall j | Earlier(lens, n, 0, j) :: UpPlace(lens, j) < pp && perm[UpPlace(lens, j)] == j
    {
      CountNone(lens, n);
      for i := 0 to alphaSize
        invariant pp == Start(lens, n) + Count(lens, i, n)
        invariant forall j | Earlier(lens, n, i, j) :: UpPlace(lens, j) < pp && perm[UpPlace(lens, j)] == j
      {
        CountStep(lens, i, n);
        if length[i] == n {
          PlaceIs(lens, i);
          perm[pp] := i;
          pp := pp + 1;
        }
      }
      CountAll(lens, n);
      StartStep(lens, n);
    }
  }

  lemma PlaceFits(lens: seq<int>, i: int)
    requires Lengths(lens) && 0 <= i < |lens|
    ensures 0 <= UpPlace(lens, i) < |lens|
  {
    hide UpPlace;
    PlacesInBucket(lens, i);
    PlaceInRange(lens, LONGEST_CODE + 1, lens[i], UpPlace(lens, i));
  }

  lemma PlaceIs(lens: seq<int>, i: int)
    requires 0 <= i < |lens| && lens[i] >= 0
    ensures UpPlace(lens, i) == Start(lens, lens[i]) + Count(lens, i, lens[i])
  {
  }

  /** The running counts of the lengths: base[n] is the number of codes shorter than n. */
  method FillBase(base: array<int>, length: array<int>, alphaSize: int)
    requires base != length && 0 < alphaSize <= length.Length && base.Length == BZ_MAX_ALPHA_SIZE
    requires Lengths(length[..alphaSize])
    modifies base
    ensures forall n | 0 <= n < BZ_MAX_CODE_LEN :: base[n] == Start(length[..alphaSize], n)
  {
    hide Start, Count;
    ghost var lens := length[..alphaSize];
    for i := 0 to BZ_MAX_CODE_LEN
      invariant forall k | 0 <= k < i :: base[k] == 0
    {
      base[i] := 0;
    }
    forall c ensures Count(lens, 0, c) == 0 { CountNone(lens, c); }
    for i := 0 to alphaSize
      invariant base[0] == 0
      invariant forall k | 1 <= k < BZ_MAX_CODE_LEN :: base[k] == Count(lens, i, k - 1)
    {
      forall c ensures Count(lens, i + 1, c) == Count(lens, i, c) + if lens[i] == c then 1 else 0 {
        CountStep(lens, i, c); }
      base[length[i] + 1] := base[length[i] + 1] + 1;
    }
    forall c ensures Count(lens, alphaSize, c) == multiset(lens)[c] { CountAll(lens, c); }
    forall c: nat ensures Start(lens, c + 1) == Start(lens, c) + multiset(lens)[c as int] { StartStep(lens, c); }
    assert Start(lens, 0) == 0 by { NothingShorter(lens, 1, 0); }
    for i := 1 to BZ_MAX_CODE_LEN
      invariant forall k | 0 <= k < i :: base[k] == Start(lens, k)
      invariant forall k | i <= k < BZ_MAX_CODE_LEN :: base[k] == multiset(lens)[k - 1]
    {
      base[i] := base[i] + base[i - 1];
    }
  }

  /** BZ2_hbCreateDecodeTables. */
  method CreateDecodeTables(limit: array<int>, base: array<int>, perm: array<int>, length: array<int>,
                            minLen: int, maxLen: int, alphaSize: int)
    requires limit != base && limit != perm && base != perm
    requires limit != length && base != length && perm != length
    requires limit.Length == base.Length == perm.Length == BZ_MAX_ALPHA_SIZE && 0 < alphaSize <= length.Length
    requires Extremes(length[..alphaSize], minLen, maxLen)
    modifies limit, base, perm
    ensures IsTables(limit[..], base[..], perm[..], length[..alphaSize], minLen, maxLen)
  {
    hide Start, First, Past, IsPerm, Extremes;
    ghost var lens := length[..alphaSize];
    ExtremeFacts(lens, minLen, maxLen);
    NothingShorter(lens, minLen, minLen);
    FillPerm(perm, length, minLen, maxLen, alphaSize);
    FillBase(base, length, alphaSize);
    ghost var perm0 := perm[..];
    for i := 0 to BZ_MAX_CODE_LEN
      invariant forall k | 0 <= k < i :: limit[k] == 0
      invariant forall k | 0 <= k < BZ_MAX_CODE_LEN :: base[k] == Start(lens, k)
      invariant perm[..] == perm0
    {
      limit[i] := 0;
    }
    var vec := 0;
    for i := minLen to maxLen + 1
      invariant vec == First(lens, i)
      invariant forall k | minLen <= k < i :: limit[k] == Past(lens, k) - 1
      invariant forall k | maxLen < k < BZ_MAX_CODE_LEN :: limit[k] == 0
      invariant forall k | 0 <= k < BZ_MAX_CODE_LEN :: base[k] == Start(lens, k)
      invariant perm[..] == perm0
    {
      StartStep(lens, i);
      FirstNext(lens, i);
      vec := vec + (base[i + 1] - base[i]);
      limit[i] := vec - 1;
      vec := vec * 2;
    }
    for i := minLen + 1 to maxLen + 1
      invariant forall k | minLen <= k <= maxLen :: limit[k] == Past(lens, k) - 1
      invariant forall k | maxLen < k < BZ_MAX_CODE_LEN :: limit[k] == 0
      invariant forall k | minLen <= k < i :: base[k] == First(lens, k) - Start(lens, k)
      invariant forall k | i <= k < BZ_MAX_CODE_LEN :: base[k] == Start(lens, k)
      invariant perm[..] == perm0
    {
      FirstNext(lens, i - 1);
      base[i] := (limit[i - 1] + 1) * 2 - base[i];
    }
  }

  lemma ExtremeFacts(lens: seq<int>, minLen: int, maxLen: int)
    requires Extremes(lens, minLen, maxLen)
    ensures Lengths(lens) && 1 <= minLen <= maxLen <= LONGEST_CODE
    ensures forall i | 0 <= i < |lens| :: minLen <= lens[i] <= maxLen
    ensures multiset(lens)[minLen] >= 1 && multiset(lens)[maxLen] >= 1
  {
    assert minLen in multiset(lens) && maxLen in multiset(lens);
  }

  // ---- the decoding loop ----

  datatype Outcome = Symbol(sym: int) | DataError | NeedMore

  /** The first n bits, read as a number, lie beyond all codes of length at most n... */
  ghost predicate Beyond(lens: seq<int>, bits: seq<bool>, n: int) {
    0 <= n <= |bits| && Value(bits[..n]) >= Past(lens, n)
  }

  /** ... and then so do all continuations, so none of these codes is what the bits start with. */
  lemma BeyondShort(lens: seq<int>, bits: seq<bool>, n: int, i: int)
    requires Lengths(lens) && CodesFit(lens) && Beyond(lens, bits, n) && 0 <= i < |lens| && lens[i] <= n
    ensures !(CodeBits(lens, i) <= bits)
  {
    hide Pow2, First, Past, Code, ToBits, Value, CodesFit, IsTail;
    var d := n - lens[i];
    KraftMeansFit(lens, i);
    CodeBelowPast(lens, i);
    if CodeBits(lens, i) <= bits {
      PrefixValue(bits, lens[i], n);
      ValueToBits(Code(lens, i), lens[i]);
      assert bits[..lens[i]] == CodeBits(lens, i);
      if d > 0 {
        FirstGrows(lens, lens[i], n);
        FirstIsBelowPast(lens, n);
        QuotientAtLeast(Value(bits[..n]), Past(lens, lens[i]), Pow2(d));
      } else {
        Pow2Of1();
      }
    }
  }

  lemma FirstIsBelowPast(lens: seq<int>, n: nat)
    ensures First(lens, n) <= Past(lens, n)
  {
  }

  /** A shorter prefix spells the quotient. */
  lemma PrefixValue(bits: seq<bool>, m: nat, n: nat)
    requires m <= n <= |bits|
    ensures Value(bits[..m]) == Value(bits[..n]) / Pow2(n - m)
  {
    hide Pow2, ToBits, Value, IsTail;
    var v := Value(bits[..n]);
    ToBitsValue(bits[..n]);
    SplitBits(v, m, n - m);
    assert bits[..m] == bits[..n][..m] == ToBits(v / Pow2(n - m), m);
    QuotientBelow(v, m, n - m);
    ValueToBits(v / Pow2(n - m), m);
  }

  /** A number within the range of its length selects the symbol with exactly those bits. */
  lemma SelectedSymbol(limit: seq<int>, base: seq<int>, perm: seq<int>, lens: seq<int>, minLen: int, maxLen: int,
                 bits: seq<bool>, n: int)
    requires IsTables(limit, base, perm, lens, minLen, maxLen)
    requires minLen <= n <= maxLen && n <= |bits|
    requires First(lens, n) <= Value(bits[..n]) <= limit[n]
    ensures var k := Value(bits[..n]) - base[n];
      0 <= k < |lens| && 0 <= perm[k] < |lens| && lens[perm[k]] == n && CodeBits(lens, perm[k]) == bits[..n]
  {
    hide Pow2, First, Past, ToBits, Value, Start, Count, IsTail;
    ExtremeFacts(lens, minLen, maxLen);
    FirstNext(lens, n);
    StartStep(lens, n);
    var k := Value(bits[..n]) - base[n];
    PlaceInRange(lens, LONGEST_CODE + 1, n, k);
    var i := PlacedSymbol(lens, k);
    PlacesInBucket(lens, i);
    BucketOrder(lens, lens[i], k, n, k);
    assert perm[UpPlace(lens, i)] == i;
    ToBitsValue(bits[..n]);
  }

  lemma PlacedSymbol(lens: seq<int>, k: int) returns (i: int)
    requires Lengths(lens) && 0 <= k < |lens|
    ensures 0 <= i < |lens| && UpPlace(lens, i) == k
  {
    hide UpPlace;
    forall i | 0 <= i < |lens| ensures 0 <= UpPlace(lens, i) < |lens| { PlaceFits(lens, i); }
    var place := seq(|lens|, i requires 0 <= i < |lens| => UpPlace(lens, i));
    forall i, j | 0 <= i < j < |lens| ensures place[i] != place[j] { PlacesDiffer(lens, i, j); }
    i := PermutationIndex(place, |lens|, k);
  }

  /** The start of the loop. */
  lemma BeyondStart(lens: seq<int>, minLen: int)
    requires forall i | 0 <= i < |lens| :: minLen <= lens[i]
    requires minLen >= 0
    ensures First(lens, minLen) == 0
  {
    NothingShorter(lens, minLen, minLen);
  }

  lemma BeyondNext(lens: seq<int>, bits: seq<bool>, n: nat)
    requires Beyond(lens, bits, n) && n < |bits|
    ensures Value(bits[..n + 1]) == 2 * Value(bits[..n]) + (if bits[n] then 1 else 0)
    ensures First(lens, n + 1) <= Value(bits[..n + 1])
  {
    hide Value, Past;
    assert bits[..n + 1] == bits[..n] + [bits[n]];
    ValueAppend(bits[..n], bits[n]);
    FirstNext(lens, n);
  }

  /** The loop's state: n bits of the input have been read as a number that is not below the codes of its length. */
  ghost predicate Scanning(lens: seq<int>, bits: seq<bool>, minLen: int, n: int, value: int, rest: seq<bool>) {
    && minLen <= n <= |bits| && n <= LONGEST_CODE + 1 && 0 <= minLen
    && value == Value(bits[..n]) && rest == bits[n..]
    && First(lens, n) <= value
    && (n > minLen ==> Beyond(lens, bits, n - 1))
  }

  lemma ScanStart(lens: seq<int>, bits: seq<bool>, minLen: int)
    requires forall i | 0 <= i < |lens| :: minLen <= lens[i]
    requires 0 <= minLen <= LONGEST_CODE && minLen <= |bits|
    ensures Scanning(lens, bits, minLen, minLen, Value(bits[..minLen]), bits[minLen..])
  {
    hide Value;
    BeyondStart(lens, minLen);
  }

  lemma ScanStep(limit: seq<int>, base: seq<int>, perm: seq<int>, lens: seq<int>, minLen: int, maxLen: int,
                 bits: seq<bool>, n: int, value: int, rest: seq<bool>)
    requires IsTables(limit, base, perm, lens, minLen, maxLen)
    requires Scanning(lens, bits, minLen, n, value, rest) && n <= LONGEST_CODE && value > limit[n]
    ensures Beyond(lens, bits, n)
    ensures |rest| >= 1 ==> Scanning(lens, bits, minLen, n + 1, value * 2 + Value(rest[..1]), rest[1..])
    ensures |rest| == |bits| - n
  {
    hide Value, First, Past, IsTables, Beyond;
    TableFacts(limit, base, perm, lens, minLen, maxLen);
    PastLimit(limit, base, perm, lens, minLen, maxLen, bits, n);
    if |rest| >= 1 {
      OneBit(bits, n);
      BeyondNext(lens, bits, n);
    }
  }

  datatype Scan = Found(zn: int, zvec: int) | NoCode | Starved

  /** How the loop can end: with a number within the codes of its length, or knowing that no code matches. */
  ghost predicate Scanned(res: Scan, limit: seq<int>, lens: seq<int>, minLen: int, maxLen: int, bits: seq<bool>,
                          rest: seq<bool>) {
    match res
    case Found(zn, zvec) =>
      && 0 <= minLen <= zn <= maxLen && zn <= |bits| && zn < |limit|
      && First(lens, zn) <= zvec <= limit[zn] && zvec == Value(bits[..zn]) && rest == bits[zn..]
    case _ =>
      CodesFit(lens) ==> forall i | 0 <= i < |lens| :: lens[i] >= 0 && !(CodeBits(lens, i) <= bits)
  }

  lemma ScanFound(limit: seq<int>, base: seq<int>, perm: seq<int>, lens: seq<int>, minLen: int, maxLen: int,
                  bits: seq<bool>, n: int, value: int, rest: seq<bool>)
    requires IsTables(limit, base, perm, lens, minLen, maxLen)
    requires Scanning(lens, bits, minLen, n, value, rest) && n <= LONGEST_CODE && value <= limit[n]
    ensures Scanned(Found(n, value), limit, lens, minLen, maxLen, bits, rest)
  {
    hide Value, First, IsTables, Beyond;
    TableFacts(limit, base, perm, lens, minLen, maxLen);
    PastLimit(limit, base, perm, lens, minLen, maxLen, bits, n);
  }

  lemma ScanFailed(res: Scan, limit: seq<int>, lens: seq<int>, minLen: int, maxLen: int, bits: seq<bool>,
                   rest: seq<bool>)
    requires !res.Found? && Lengths(lens)
    requires CodesFit(lens) ==> forall i | 0 <= i < |lens| :: !(CodeBits(lens, i) <= bits)
    ensures Scanned(res, limit, lens, minLen, maxLen, bits, rest)
  {
    hide CodesFit, CodeBits;
  }

  /** Reads bit after bit until the number read is within the codes of its length. */
  method ScanCode(r: BitReader, limit: seq<int>, minLen: int, ghost base: seq<int>, ghost perm: seq<int>,
                  ghost lens: seq<int>, ghost maxLen: int) returns (res: Scan)
    requires r.Valid() && IsTables(limit, base, perm, lens, minLen, maxLen)
    modifies r
    ensures r.Valid() && Scanned(res, limit, lens, minLen, maxLen, old(r.Unread()), r.Unread())
    ensures res.Starved? ==> r.nextIn == []
  {
    hide IsTables, Value, First, Past, CodesFit, CodeBits, Beyond, Scanning, Scanned, BitReader.Valid;
    ghost var bits := r.Unread();
    TableFacts(limit, base, perm, lens, minLen, maxLen);
    var zn := minLen;
    var ok, zvec := r.Get(zn);
    if !ok {
      TooShort(lens, bits, minLen);
      ScanFailed(Starved, limit, lens, minLen, maxLen, bits, r.Unread());
      return Starved;
    }
    ScanStart(lens, bits, minLen);
    while true
      invariant r.Valid() && minLen <= zn <= LONGEST_CODE + 1
      invariant Scanning(lens, bits, minLen, zn, zvec, r.Unread())
      decreases LONGEST_CODE + 1 - zn
    {
      if zn > LONGEST_CODE {
        NoneMatches(lens, bits, minLen, zn, zvec, r.Unread());
        ScanFailed(NoCode, limit, lens, minLen, maxLen, bits, r.Unread());
        return NoCode;
      }
      if zvec <= limit[zn] { break; }
      ScanStep(limit, base, perm, lens, minLen, maxLen, bits, zn, zvec, r.Unread());
      zn := zn + 1;
      var zj;
      ok, zj := r.Get(1);
      if !ok {
        OutOfBits(lens, bits, zn - 1);
        ScanFailed(Starved, limit, lens, minLen, maxLen, bits, r.Unread());
        return Starved;
      }
      zvec := zvec * 2 + zj;
    }
    ScanFound(limit, base, perm, lens, minLen, maxLen, bits, zn, zvec, r.Unread());
    res := Found(zn, zvec);
  }

  /** GET_MTF_VAL after its group bookkeeping: the symbol whose code the input starts with, whatever follows
      it, and its bits consumed exactly. For lengths that satisfy Kraft's inequality anything else means that
      no code matches the input, or none yet. */
  method DecodeSymbol(r: BitReader, limit: seq<int>, base: seq<int>, perm: seq<int>, minLen: int,
                      ghost lens: seq<int>, ghost maxLen: int) returns (res: Outcome)
    requires r.Valid() && IsTables(limit, base, perm, lens, minLen, maxLen)
    modifies r
    ensures r.Valid()
    ensures res.Symbol? ==> 0 <= res.sym < |lens| && lens[res.sym] >= 0 && CodeBits(lens, res.sym) <= old(r.Unread())
                            && r.Unread() == old(r.Unread())[lens[res.sym]..]
    ensures !res.Symbol? && CodesFit(lens) ==>
              forall i | 0 <= i < |lens| :: lens[i] >= 0 && !(CodeBits(lens, i) <= old(r.Unread()))
    ensures res.NeedMore? ==> r.nextIn == []
  {
    hide IsTables, Value, First, Past, CodesFit, CodeBits;
    ghost var bits := r.Unread();
    TableFacts(limit, base, perm, lens, minLen, maxLen);
    var scan := ScanCode(r, limit, minLen, base, perm, lens, maxLen);
    match scan
    case Starved => return NeedMore;
    case NoCode => return DataError;
    case Found(zn, zvec) =>
      SelectedSymbol(limit, base, perm, lens, minLen, maxLen, bits, zn);
      if zvec - base[zn] < 0 || zvec - base[zn] >= BZ_MAX_ALPHA_SIZE {
        return DataError;
      }
      res := Symbol(perm[zvec - base[zn]]);
      assert bits[..zn] <= bits;
  }

  lemma TableFacts(limit: seq<int>, base: seq<int>, perm: seq<int>, lens: seq<int>, minLen: int, maxLen: int)
    requires IsTables(limit, base, perm, lens, minLen, maxLen)
    ensures Lengths(lens) && 1 <= minLen <= maxLen <= LONGEST_CODE
    ensures forall i | 0 <= i < |lens| :: minLen <= lens[i] <= maxLen
    ensures |limit| == |base| == |perm| == BZ_MAX_ALPHA_SIZE
  {
    ExtremeFacts(lens, minLen, maxLen);
  }

  /** What the comparison with limit means, beyond the longest code too. */
  lemma PastLimit(limit: seq<int>, base: seq<int>, perm: seq<int>, lens: seq<int>, minLen: int, maxLen: int,
                  bits: seq<bool>, n: int)
    requires IsTables(limit, base, perm, lens, minLen, maxLen)
    requires minLen <= n <= LONGEST_CODE && n <= |bits| && First(lens, n) <= Value(bits[..n])
    requires n > minLen ==> Beyond(lens, bits, n - 1)
    ensures Value(bits[..n]) > limit[n] ==> Beyond(lens, bits, n)
    ensures Value(bits[..n]) <= limit[n] ==> n <= maxLen
  {
    hide First, Value, Past;
    ExtremeFacts(lens, minLen, maxLen);
    FirstNext(lens, n);
    if n > maxLen {
      assert n !in lens;
      assert n !in multiset(lens);
      PastPositive(lens, maxLen, n);
    }
  }

  lemma PastPositive(lens: seq<int>, m: nat, n: nat)
    requires multiset(lens)[m as int] >= 1 && m < n
    ensures First(lens, n) >= 1
  {
    hide Pow2;
    FirstGrows(lens, m, n);
    FirstNext(lens, m);
    ProductOrder(1, Past(lens, m), Pow2(n - m));
  }

  lemma OneBit(bits: seq<bool>, n: nat)
    requires n < |bits|
    ensures Value(bits[n..][..1]) == (if bits[n] then 1 else 0)
    ensures bits[n..][1..] == bits[n + 1..]
  {
    assert bits[n..][..1] == [] + [bits[n]];
    ValueAppend([], bits[n]);
  }

  lemma NoneMatches(lens: seq<int>, bits: seq<bool>, minLen: int, n: int, value: int, rest: seq<bool>)
    requires Lengths(lens) && Scanning(lens, bits, minLen, n, value, rest) && n > LONGEST_CODE >= minLen
    ensures CodesFit(lens) ==> forall i | 0 <= i < |lens| :: !(CodeBits(lens, i) <= bits)
  {
    hide CodesFit, CodeBits, Beyond, First, Past, Value;
    if CodesFit(lens) {
      forall i | 0 <= i < |lens| ensures !(CodeBits(lens, i) <= bits) { BeyondShort(lens, bits, n - 1, i); }
    }
  }

  lemma OutOfBits(lens: seq<int>, bits: seq<bool>, n: int)
    requires Lengths(lens) && Beyond(lens, bits, n) && |bits| == n
    ensures CodesFit(lens) ==> forall i | 0 <= i < |lens| :: !(CodeBits(lens, i) <= bits)
  {
    hide CodesFit, Beyond;
    if CodesFit(lens) {
      forall i | 0 <= i < |lens| ensures !(CodeBits(lens, i) <= bits) {
        if lens[i] <= n { BeyondShort(lens, bits, n, i); }
      }
    }
  }

  lemma TooShort(lens: seq<int>, bits: seq<bool>, minLen: int)
    requires Lengths(lens) && |bits| < minLen && forall i | 0 <= i < |lens| :: minLen <= lens[i]
    ensures forall i | 0 <= i < |lens| :: !(CodeBits(lens, i) <= bits)
  {
  }
}
