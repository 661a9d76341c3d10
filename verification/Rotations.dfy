/** The order of the cyclic rotations of a block, which both block sorters must produce. */
module Rotations {
  import opened Permutations

  /** Byte i of the block repeated for ever. */
  function At(b: seq<Byte>, i: nat): Byte
    requires |b| > 0
  {
    if i < |b| then b[i] else At(b, i - |b|)
  }

  /** Compares the rotations starting at i and at j on their first h bytes: -1, 0 or 1. */
  ghost function Cmp(b: seq<Byte>, i: nat, j: nat, h: nat): int
    requires |b| > 0
    decreases h
  {
    if h == 0 then 0
    else if At(b, i) < At(b, j) then -1
    else if At(b, i) > At(b, j) then 1
    else Cmp(b, i + 1, j + 1, h - 1)
  }

  /** The whole rotations are compared on |b| bytes. */
  ghost predicate NotAfter(b: seq<Byte>, i: nat, j: nat)
    requires |b| > 0
  {
    Cmp(b, i, j, |b|) <= 0
  }

  /** p lists the rotations of b in non-decreasing order; equal rotations may come in any order. */
  ghost predicate IsRotationOrder(b: seq<Byte>, p: seq<int>)
    requires |b| > 0
  {
    && IsPermutation(p, |b|)
    && forall i, j | 0 <= i < j < |b| :: NotAfter(b, p[i], p[j])
  }

  // ---- Cmp is the lexicographic order of the rotations as byte sequences ----

  ghost function Rotation(b: seq<Byte>, i: int): seq<Byte>
    requires 0 <= i < |b|
  {
    b[i..] + b[..i]
  }

  ghost predicate LexLess(s: seq<Byte>, t: seq<Byte>) {
    exists k | 0 <= k < |s| && k < |t| :: s[..k] == t[..k] && s[k] < t[k]
  }

  /** Where the comparison is decided. */
  lemma {:induction false} CmpWitness(b: seq<Byte>, i: nat, j: nat, h: nat) returns (k: nat)
    requires |b| > 0
    ensures k <= h && Cmp(b, i, j, k) == 0
    ensures k < h ==> At(b, i + k) != At(b, j + k)
    ensures k < h ==> Cmp(b, i, j, h) == (if At(b, i + k) < At(b, j + k) then -1 else 1)
    decreases h
  {
    if h == 0 || At(b, i) != At(b, j) {
      k := 0;
    } else {
      var k' := CmpWitness(b, i + 1, j + 1, h - 1);
      k := k' + 1;
      assert i + 1 + k' == i + k && j + 1 + k' == j + k;
    }
  }

  lemma {:induction false} EqualBytes(b: seq<Byte>, i: nat, j: nat, h: nat, m: nat)
    requires |b| > 0 && Cmp(b, i, j, h) == 0 && m < h
    ensures At(b, i + m) == At(b, j + m)
    decreases m
  {
    if m > 0 {
      EqualBytes(b, i + 1, j + 1, h - 1, m - 1);
      assert i + 1 + (m - 1) == i + m && j + 1 + (m - 1) == j + m;
    }
  }

  /** The comparison used throughout is the usual order of the rotations as strings. */
  lemma CmpIsLexicographic(b: seq<Byte>, i: int, j: int)
    requires 0 <= i < |b| && 0 <= j < |b|
    ensures Cmp(b, i, j, |b|) < 0 <==> LexLess(Rotation(b, i), Rotation(b, j))
    ensures Cmp(b, i, j, |b|) == 0 <==> Rotation(b, i) == Rotation(b, j)
  {
    var n, s, t := |b|, Rotation(b, i), Rotation(b, j);
    var k := CmpWitness(b, i, j, n);
    forall m | 0 <= m < k ensures s[m] == t[m] {
      EqualBytes(b, i, j, k, m);
    }
    assert s[..k] == t[..k];
    if k < n {
      assert s[k] == At(b, i + k) && t[k] == At(b, j + k);
    } else {
      assert s == s[..k] && t == t[..k];
    }
    if LexLess(s, t) {
      var k' :| 0 <= k' < |s| && k' < |t| && s[..k'] == t[..k'] && s[k'] < t[k'];
      forall m | 0 <= m < k' ensures s[m] == t[m] {
        assert s[..k'][m] == t[..k'][m];
      }
    }
  }

  /** As strings, the rotations never descend. */
  ghost predicate NeverDescends(b: seq<Byte>, p: seq<int>) {
    && (forall i | 0 <= i < |p| :: 0 <= p[i] < |b|)
    && forall i, j | 0 <= i < j < |p| :: !LexLess(Rotation(b, p[j]), Rotation(b, p[i]))
  }

  lemma OrderAscends(b: seq<Byte>, p: seq<int>)
    requires |b| > 0 && IsRotationOrder(b, p)
    ensures NeverDescends(b, p)
  {
    hide LexLess, Rotation, Cmp;
    assert forall i | 0 <= i < |p| :: 0 <= p[i] < |b|;
    forall i, j | 0 <= i < j < |p| ensures !LexLess(Rotation(b, p[j]), Rotation(b, p[i])) {
      assert NotAfter(b, p[i], p[j]);
      CmpAntisymmetric(b, p[i], p[j], |b|);
      CmpIsLexicographic(b, p[j], p[i]);
    }
  }

  // ---- laws of Cmp ----

  lemma {:induction false} CmpSplit(b: seq<Byte>, i: nat, j: nat, h1: nat, h2: nat)
    requires |b| > 0
    ensures Cmp(b, i, j, h1 + h2) ==
            if Cmp(b, i, j, h1) != 0 then Cmp(b, i, j, h1) else Cmp(b, i + h1, j + h1, h2)
    decreases h1
  {
    if h1 > 0 && At(b, i) == At(b, j) {
      CmpSplit(b, i + 1, j + 1, h1 - 1, h2);
      assert Cmp(b, i + 1 + (h1 - 1), j + 1 + (h1 - 1), h2) == Cmp(b, i + h1, j + h1, h2);
    }
  }

  lemma {:induction false} CmpAntisymmetric(b: seq<Byte>, i: nat, j: nat, h: nat)
    requires |b| > 0
    ensures Cmp(b, i, j, h) == -Cmp(b, j, i, h)
    decreases h
  {
    if h > 0 { CmpAntisymmetric(b, i + 1, j + 1, h - 1); }
  }

  lemma {:induction false} CmpReflexive(b: seq<Byte>, i: nat, h: nat)
    requires |b| > 0
    ensures Cmp(b, i, i, h) == 0
    decreases h
  {
    CmpAntisymmetric(b, i, i, h);
  }

  lemma {:induction false} CmpTransitive(b: seq<Byte>, i: nat, j: nat, k: nat, h: nat)
    requires |b| > 0
    requires Cmp(b, i, j, h) <= 0 && Cmp(b, j, k, h) <= 0
    ensures Cmp(b, i, k, h) <= 0
    ensures Cmp(b, i, k, h) == 0 ==> Cmp(b, i, j, h) == 0 && Cmp(b, j, k, h) == 0
    ensures Cmp(b, i, j, h) == 0 && Cmp(b, j, k, h) == 0 ==> Cmp(b, i, k, h) == 0
    decreases h
  {
    if h > 0 && At(b, i) == At(b, j) == At(b, k) {
      CmpTransitive(b, i + 1, j + 1, k + 1, h - 1);
    }
  }

  lemma {:induction false} CmpCongruent(b: seq<Byte>, i: nat, i': nat, j: nat, j': nat, h: nat)
    requires |b| > 0
    requires Cmp(b, i, i', h) == 0 && Cmp(b, j, j', h) == 0
    ensures Cmp(b, i, j, h) == Cmp(b, i', j', h)
    decreases h
  {
    if h > 0 { CmpCongruent(b, i + 1, i' + 1, j + 1, j' + 1, h - 1); }
  }

  lemma AtPeriodic(b: seq<Byte>, i: nat)
    requires |b| > 0
    ensures At(b, i + |b|) == At(b, i)
  {
  }

  lemma {:induction false} CmpPeriodic(b: seq<Byte>, i: nat, j: nat, h: nat)
    requires |b| > 0
    ensures Cmp(b, i + |b|, j, h) == Cmp(b, i, j, h)
    ensures Cmp(b, i, j + |b|, h) == Cmp(b, i, j, h)
    decreases h
  {
    AtPeriodic(b, i);
    AtPeriodic(b, j);
    if h > 0 {
      CmpPeriodic(b, i + 1, j + 1, h - 1);
      assert Cmp(b, i + 1 + |b|, j + 1, h - 1) == Cmp(b, i + |b| + 1, j + 1, h - 1);
      assert Cmp(b, i + 1, j + 1 + |b|, h - 1) == Cmp(b, i + 1, j + |b| + 1, h - 1);
    }
  }

  /** i modulo n, for the once-wrapped indices the code uses. */
  function Wrap(i: nat, n: nat): (r: nat)
    requires i < 2 * n
    ensures r < n
  {
    if i < n then i else i - n
  }

  lemma CmpWrap(b: seq<Byte>, i: nat, j: nat, h: nat)
    requires |b| > 0 && i < 2 * |b| && j < 2 * |b|
    ensures Cmp(b, Wrap(i, |b|), Wrap(j, |b|), h) == Cmp(b, i, j, h)
  {
    var i', j' := Wrap(i, |b|), Wrap(j, |b|);
    CmpPeriodic(b, i', j', h);
    CmpPeriodic(b, i, j', h);
  }

  /** A prefix of equal comparisons. */
  lemma CmpShorter(b: seq<Byte>, i: nat, j: nat, h: nat, h': nat)
    requires |b| > 0 && h <= h'
    ensures Cmp(b, i, j, h) != 0 ==> Cmp(b, i, j, h') == Cmp(b, i, j, h)
  {
    CmpSplit(b, i, j, h, h' - h);
  }

  /** Rotations equal on |b| bytes are equal for ever. */
  lemma {:induction false} CmpForever(b: seq<Byte>, i: nat, j: nat, h: nat)
    requires |b| > 0
    requires Cmp(b, i, j, |b|) == 0
    ensures Cmp(b, i, j, h) == 0
    decreases h
  {
    if h > 0 {
      var n := |b|;
      CmpSplit(b, i, j, n, 1);
      AtPeriodic(b, i);
      AtPeriodic(b, j);
      CmpSplit(b, i, j, 1, n);
      CmpShorter(b, i, j, 1, n);
      assert Cmp(b, i, j, 1) == 0;
      assert At(b, i) == At(b, j);
      assert Cmp(b, i + n, j + n, 1) == 0;
      assert Cmp(b, i, j, n + 1) == 0;
      CmpForever(b, i + 1, j + 1, h - 1);
    }
  }

  /** Looking beyond |b| bytes decides nothing more. */
  lemma CmpStable(b: seq<Byte>, i: nat, j: nat, h: nat)
    requires |b| > 0 && h >= |b|
    ensures Cmp(b, i, j, h) == Cmp(b, i, j, |b|)
  {
    if Cmp(b, i, j, |b|) == 0 {
      CmpForever(b, i, j, h);
    } else {
      CmpShorter(b, i, j, |b|, h);
    }
  }

  // ---- ranks ----

  /** rk orders the rotations exactly as their first h bytes do. */
  ghost predicate Ranks(b: seq<Byte>, h: nat, rk: seq<int>)
    requires |b| > 0
  {
    && |rk| == |b|
    && forall i, j | 0 <= i < |b| && 0 <= j < |b| :: rk[i] < rk[j] <==> Cmp(b, i, j, h) < 0
  }

  lemma RanksEqual(b: seq<Byte>, h: nat, rk: seq<int>, i: int, j: int)
    requires |b| > 0 && Ranks(b, h, rk)
    requires 0 <= i < |b| && 0 <= j < |b|
    ensures rk[i] == rk[j] <==> Cmp(b, i, j, h) == 0
    ensures rk[i] <= rk[j] <==> Cmp(b, i, j, h) <= 0
  {
    CmpAntisymmetric(b, i, j, h);
    assert rk[j] < rk[i] <==> Cmp(b, j, i, h) < 0;
    assert rk[i] < rk[j] <==> Cmp(b, i, j, h) < 0;
  }

  /** The starts of the rotations that precede rotation i. */
  ghost function Predecessors(b: seq<Byte>, h: nat, i: nat): set<int>
    requires |b| > 0
  {
    set j | 0 <= j < |b| && Cmp(b, j, i, h) < 0
  }

  lemma RanksExist(b: seq<Byte>, h: nat) returns (rk: seq<int>)
    requires |b| > 0
    ensures Ranks(b, h, rk)
    ensures forall i | 0 <= i < |b| :: 0 <= rk[i] <= |b|
  {
    BelowFacts(|b|);
    forall i | 0 <= i < |b| ensures |Predecessors(b, h, i)| <= |b| {
      SubsetSize(Predecessors(b, h, i), Below(|b|));
    }
    rk := seq(|b|, i requires 0 <= i < |b| => |Predecessors(b, h, i)|);
    forall i, j | 0 <= i < |b| && 0 <= j < |b|
      ensures rk[i] < rk[j] <==> Cmp(b, i, j, h) < 0
    {
      CmpAntisymmetric(b, i, j, h);
      if Cmp(b, i, j, h) < 0 {
        PredecessorsGrow(b, h, i, j);
        CmpReflexive(b, i, h);
        assert i in Predecessors(b, h, j) && i !in Predecessors(b, h, i);
        SubsetSize(Predecessors(b, h, i), Predecessors(b, h, j));
      } else {
        PredecessorsGrow(b, h, j, i);
        SubsetSize(Predecessors(b, h, j), Predecessors(b, h, i));
      }
    }
  }

  lemma PredecessorsGrow(b: seq<Byte>, h: nat, i: nat, j: nat)
    requires |b| > 0 && Cmp(b, i, j, h) <= 0
    ensures Predecessors(b, h, i) <= Predecessors(b, h, j)
  {
    forall k | k in Predecessors(b, h, i) ensures k in Predecessors(b, h, j) {
      CmpTransitive(b, k, i, j, h);
    }
  }

  /** With ranks of whole rotations, being sorted is being ascending. */
  lemma SortedByRank(b: seq<Byte>, rk: seq<int>, p: seq<int>)
    requires |b| > 0 && Ranks(b, |b|, rk)
    requires IsPermutation(p, |b|)
    ensures IsRotationOrder(b, p) <==> forall i, j | 0 <= i < j < |b| :: rk[p[i]] <= rk[p[j]]
  {
    forall i, j | 0 <= i < j < |b| ensures NotAfter(b, p[i], p[j]) <==> rk[p[i]] <= rk[p[j]] {
      RanksEqual(b, |b|, rk, p[i], p[j]);
    }
  }

  /** The first byte and the rest: how prepending one byte acts on the order. */
  lemma CmpPrepend(b: seq<Byte>, i: nat, j: nat)
    requires |b| > 0 && At(b, i) == At(b, j)
    ensures Cmp(b, i, j, |b|) == Cmp(b, i + 1, j + 1, |b|)
  {
    CmpSplit(b, i, j, 1, |b|);
    CmpStable(b, i, j, |b| + 1);
    assert Cmp(b, i, j, 1) == 0;
  }
}
