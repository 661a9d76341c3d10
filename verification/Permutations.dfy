/** Bytes, and rearrangements of integer sequences: the vocabulary shared by the sorters. */
module Permutations {

  /** An unsigned char. */
  type Byte = b: int | 0 <= b < 256

  /** The sequence 0, 1, ..., n-1. */
  ghost function Iota(n: nat): (r: seq<int>)
    ensures |r| == n && forall i | 0 <= i < n :: r[i] == i
  {
    seq(n, i => i)
  }

  /** p lists 0..n-1, each exactly once. */
  ghost predicate IsPermutation(p: seq<int>, n: nat) {
    && |p| == n
    && (forall i | 0 <= i < n :: 0 <= p[i] < n)
    && NoDuplicates(p)
  }

  ghost predicate NoDuplicates<T>(p: seq<T>) {
    forall i, j | 0 <= i < j < |p| :: p[i] != p[j]
  }

  /** The elements of a sequence, as a set. */
  ghost function Elements<T>(p: seq<T>): set<T> {
    set x | x in p
  }

  /** t rearranges the entries lo..hi-1 of s and keeps all others. */
  ghost predicate Rearranged<T>(s: seq<T>, t: seq<T>, lo: int, hi: int) {
    && 0 <= lo <= hi <= |s| == |t|
    && t[..lo] == s[..lo]
    && t[hi..] == s[hi..]
    && multiset(t[lo..hi]) == multiset(s[lo..hi])
  }

  lemma RearrangedRefl<T>(s: seq<T>, lo: int, hi: int)
    requires 0 <= lo <= hi <= |s|
    ensures Rearranged(s, s, lo, hi)
  {
  }

  lemma RearrangedTrans<T>(s: seq<T>, t: seq<T>, u: seq<T>, lo: int, hi: int)
    requires Rearranged(s, t, lo, hi) && Rearranged(t, u, lo, hi)
    ensures Rearranged(s, u, lo, hi)
  {
  }

  /** A rearrangement of a part is a rearrangement of the whole. */
  lemma RearrangedWiden<T>(s: seq<T>, t: seq<T>, lo: int, hi: int, lo': int, hi': int)
    requires Rearranged(s, t, lo, hi)
    requires 0 <= lo' <= lo <= hi <= hi' <= |s|
    ensures Rearranged(s, t, lo', hi')
  {
    assert s[lo'..hi'] == s[..lo][lo'..] + s[lo..hi] + s[hi..][..hi' - hi];
    assert t[lo'..hi'] == t[..lo][lo'..] + t[lo..hi] + t[hi..][..hi' - hi];
    assert t[..lo'] == t[..lo][..lo'] == s[..lo'];
    assert t[hi'..] == t[hi..][hi' - hi..] == s[hi'..];
  }

  /** s with entries i and j exchanged. */
  ghost function Exchange<T>(s: seq<T>, i: int, j: int): seq<T>
    requires 0 <= i < |s| && 0 <= j < |s|
  {
    s[i := s[j]][j := s[i]]
  }

  lemma ExchangeAt<T>(s: seq<T>, i: int, j: int)
    requires 0 <= i < |s| && 0 <= j < |s|
    ensures |Exchange(s, i, j)| == |s|
    ensures forall k | 0 <= k < |s| ::
              Exchange(s, i, j)[k] == if k == j then s[i] else if k == i then s[j] else s[k]
  {
  }

  lemma RearrangedSwap<T>(s: seq<T>, i: int, j: int, lo: int, hi: int)
    requires 0 <= lo <= i < hi <= |s| && lo <= j < hi
    ensures Rearranged(s, Exchange(s, i, j), lo, hi)
  {
    var t := Exchange(s, i, j);
    assert t[lo..hi] == s[lo..hi][i - lo := s[lo..hi][j - lo]][j - lo := s[lo..hi][i - lo]];
    assert t[..lo] == s[..lo];
    assert t[hi..] == s[hi..];
  }

  lemma RearrangedExchange<T>(s: seq<T>, t: seq<T>, i: int, j: int, lo: int, hi: int)
    requires Rearranged(s, t, lo, hi)
    requires lo <= i < hi && lo <= j < hi
    ensures Rearranged(s, Exchange(t, i, j), lo, hi)
  {
    hide Exchange;
    RearrangedSwap(t, i, j, lo, hi);
    RearrangedTrans(s, t, Exchange(t, i, j), lo, hi);
  }

  /** Every entry of the rearranged part was in that part before. */
  lemma RearrangedMember<T>(s: seq<T>, t: seq<T>, lo: int, hi: int, i: int) returns (j: int)
    requires Rearranged(s, t, lo, hi)
    requires lo <= i < hi
    ensures lo <= j < hi && t[i] == s[j]
  {
    var v := t[i];
    assert v == t[lo..hi][i - lo];
    assert v in multiset(t[lo..hi]);
    assert v in s[lo..hi];
    var k :| 0 <= k < hi - lo && s[lo..hi][k] == v;
    j := lo + k;
  }

  lemma RearrangedOutside<T>(s: seq<T>, t: seq<T>, lo: int, hi: int, i: int)
    requires Rearranged(s, t, lo, hi)
    requires 0 <= i < lo || hi <= i < |s|
    ensures t[i] == s[i]
  {
    if i < lo {
      assert t[i] == t[..lo][i] == s[..lo][i];
    } else {
      assert t[i] == t[hi..][i - hi] == s[hi..][i - hi];
    }
  }

  /** A property of every entry of a part survives its rearrangement. */
  lemma RearrangedAll<T>(s: seq<T>, t: seq<T>, lo: int, hi: int, ok: T -> bool)
    requires Rearranged(s, t, lo, hi)
    requires forall i | lo <= i < hi :: ok(s[i])
    ensures forall i | lo <= i < hi :: ok(t[i])
  {
    forall i | lo <= i < hi ensures ok(t[i]) {
      var j := RearrangedMember(s, t, lo, hi, i);
    }
  }

  // ---- permutations and multisets ----

  lemma ElementsAppend<T>(q: seq<T>, x: T)
    ensures Elements(q + [x]) == Elements(q) + {x}
  {
    assert forall y :: y in q + [x] <==> y in q || y == x;
  }

  lemma {:induction false} NoDuplicatesSize<T>(p: seq<T>)
    requires NoDuplicates(p)
    ensures |Elements(p)| == |p|
  {
    hide Elements;
    if p == [] {
      EmptyElements<T>();
    } else {
      var q, x := p[..|p| - 1], p[|p| - 1];
      NoDuplicatesSize(q);
      assert p == q + [x];
      ElementsAppend(q, x);
      NotEarlier(q, x);
    }
  }

  lemma EmptyElements<T>()
    ensures Elements<T>([]) == {}
  {
  }

  lemma NotEarlier<T>(q: seq<T>, x: T)
    requires NoDuplicates(q + [x])
    ensures x !in Elements(q)
  {
    forall i | 0 <= i < |q| ensures q[i] != x {
      assert (q + [x])[i] != (q + [x])[|q|];
    }
  }

  /** The set 0..n-1. */
  ghost function Below(n: nat): set<int> {
    Elements(Iota(n))
  }

  lemma BelowFacts(n: nat)
    ensures |Below(n)| == n
    ensures forall i :: i in Below(n) <==> 0 <= i < n
  {
    NoDuplicatesSize(Iota(n));
    forall i | 0 <= i < n ensures i in Below(n) {
      assert Iota(n)[i] == i;
    }
  }

  lemma SubsetSize<T>(a: set<T>, b: set<T>)
    requires a <= b
    ensures |a| <= |b|
    ensures |a| == |b| ==> a == b
  {
    assert b == a + (b - a);
    assert |b| == |a| + |b - a|;
  }

  /** A duplicate-free sequence drawn from a finite set is no longer than that set, and equally long
      only when it lists the whole set. */
  lemma Pigeonhole<T>(p: seq<T>, s: set<T>)
    requires NoDuplicates(p)
    requires forall x | x in p :: x in s
    ensures |p| <= |s|
    ensures |p| == |s| ==> Elements(p) == s
  {
    NoDuplicatesSize(p);
    SubsetSize(Elements(p), s);
  }

  /** A permutation reaches every index. */
  lemma PermutationOnto(p: seq<int>, n: nat)
    requires IsPermutation(p, n)
    ensures Elements(p) == Below(n)
  {
    BelowFacts(n);
    assert forall x | x in p :: x in Below(n);
    Pigeonhole(p, Below(n));
  }

  lemma PermutationIndex(p: seq<int>, n: nat, v: int) returns (i: int)
    requires IsPermutation(p, n) && 0 <= v < n
    ensures 0 <= i < n && p[i] == v
  {
    PermutationOnto(p, n);
    BelowFacts(n);
    assert v in Elements(p);
    i :| 0 <= i < n && p[i] == v;
  }

  lemma {:induction false} NoDuplicatesMultiset<T>(p: seq<T>, v: T)
    requires NoDuplicates(p)
    ensures multiset(p)[v] == if v in p then 1 else 0
  {
    if p != [] {
      var q := p[..|p| - 1];
      assert p == q + [p[|p| - 1]];
      NoDuplicatesMultiset(q, v);
    }
  }

  lemma PermutationMultiset(p: seq<int>, n: nat)
    requires IsPermutation(p, n)
    ensures multiset(p) == multiset(Iota(n))
  {
    PermutationOnto(p, n);
    var q := Iota(n);
    forall v ensures multiset(p)[v] == multiset(q)[v] {
      NoDuplicatesMultiset(p, v);
      NoDuplicatesMultiset(q, v);
      assert v in p <==> v in Elements(p);
      assert v in q <==> v in Elements(q);
    }
  }

  lemma OccursTwice<T>(p: seq<T>, i: int, j: int)
    requires 0 <= i < j < |p| && p[i] == p[j]
    ensures multiset(p)[p[i]] >= 2
  {
    assert p == p[..j] + [p[j]] + p[j + 1..];
    assert p[i] == p[..j][i];
    assert p[i] in multiset(p[..j]);
  }

  lemma NoDuplicatesFromMultiset<T>(p: seq<T>, q: seq<T>)
    requires NoDuplicates(q)
    requires multiset(p) == multiset(q)
    ensures NoDuplicates(p)
  {
    forall i, j | 0 <= i < j < |p| ensures p[i] != p[j] {
      if p[i] == p[j] {
        OccursTwice(p, i, j);
        NoDuplicatesMultiset(q, p[i]);
      }
    }
  }

  /** Rearranging any part of a permutation leaves a permutation. */
  lemma RearrangedPermutation(s: seq<int>, t: seq<int>, lo: int, hi: int, n: nat)
    requires IsPermutation(s, n)
    requires Rearranged(s, t, lo, hi)
    ensures IsPermutation(t, n)
  {
    RearrangedWiden(s, t, lo, hi, 0, n);
    assert s[0..n] == s && t[0..n] == t;
    NoDuplicatesFromMultiset(t, s);
    RearrangedAll(s, t, 0, n, x => 0 <= x < n);
  }

  /** Mapping a function over a sequence. */
  ghost function Map<S, T>(f: S -> T, s: seq<S>): (r: seq<T>)
    ensures |r| == |s| && forall i | 0 <= i < |s| :: r[i] == f(s[i])
  {
    seq(|s|, i requires 0 <= i < |s| => f(s[i]))
  }

  lemma RemoveAt<T>(t: seq<T>, i: int)
    requires 0 <= i < |t|
    ensures multiset(t[..i] + t[i + 1..]) == multiset(t) - multiset{t[i]}
  {
    assert t == t[..i] + [t[i]] + t[i + 1..];
  }

  lemma MapRemoveAt<S, T>(f: S -> T, t: seq<S>, i: int)
    requires 0 <= i < |t|
    ensures multiset(Map(f, t)) == multiset(Map(f, t[..i] + t[i + 1..])) + multiset{f(t[i])}
  {
    var m := Map(f, t);
    assert Map(f, t[..i] + t[i + 1..]) == m[..i] + m[i + 1..];
    assert m == m[..i] + [m[i]] + m[i + 1..];
  }

  /** Equal bags of arguments give equal bags of values. */
  lemma {:induction false} MapMultiset<S, T>(f: S -> T, s: seq<S>, t: seq<S>)
    requires multiset(s) == multiset(t)
    ensures multiset(Map(f, s)) == multiset(Map(f, t))
    decreases |s|
  {
    hide Map;
    assert |multiset(s)| == |multiset(t)|;
    if s == [] {
      assert t == [];
    } else {
      var x := s[0];
      assert x in multiset(t);
      var i :| 0 <= i < |t| && t[i] == x;
      RemoveAt(s, 0);
      RemoveAt(t, i);
      MapMultiset(f, s[..0] + s[1..], t[..i] + t[i + 1..]);
      MapRemoveAt(f, s, 0);
      MapRemoveAt(f, t, i);
    }
  }

  ghost predicate Ascending(s: seq<int>) {
    forall i, j | 0 <= i < j < |s| :: s[i] <= s[j]
  }

  lemma AscendingHead(s: seq<int>, v: int)
    requires Ascending(s) && v in s
    ensures s[0] <= v
  {
    var i :| 0 <= i < |s| && s[i] == v;
    if i > 0 { assert s[0] <= s[i]; }
  }

  ghost predicate SameBag(s: seq<int>, t: seq<int>) {
    multiset(s) == multiset(t)
  }

  lemma SameBagHeads(s: seq<int>, t: seq<int>)
    requires SameBag(s, t)
    ensures |s| == |t|
    ensures s != [] ==> s[0] in t && t[0] in s
  {
    assert |s| == |multiset(s)| == |multiset(t)| == |t|;
    if s != [] { assert s[0] in multiset(s) && t[0] in multiset(t); }
  }

  lemma SameBagTails(s: seq<int>, t: seq<int>)
    requires SameBag(s, t) && s != [] && t != [] && s[0] == t[0]
    ensures SameBag(s[1..], t[1..])
  {
    assert s == [s[0]] + s[1..] && t == [t[0]] + t[1..];
    assert multiset(s[1..]) == multiset(s) - multiset{s[0]};
    assert multiset(t[1..]) == multiset(t) - multiset{t[0]};
  }

  lemma AscendingTail(s: seq<int>)
    requires Ascending(s) && s != []
    ensures Ascending(s[1..])
  {
    forall i, j | 0 <= i < j < |s[1..]| ensures s[1..][i] <= s[1..][j] {
      assert s[i + 1] <= s[j + 1];
    }
  }

  /** An ascending sequence is determined by its bag of entries. */
  lemma {:induction false} AscendingUnique(s: seq<int>, t: seq<int>)
    requires Ascending(s) && Ascending(t) && SameBag(s, t)
    ensures s == t
  {
    hide Ascending, SameBag;
    SameBagHeads(s, t);
    if s != [] {
      AscendingHead(s, t[0]);
      AscendingHead(t, s[0]);
      AscendingTail(s);
      AscendingTail(t);
      SameBagTails(s, t);
      AscendingUnique(s[1..], t[1..]);
      assert s == [s[0]] + s[1..] && t == [t[0]] + t[1..];
    }
  }

  lemma Scale(x: int, y: int, p: int)
    requires x <= y && 0 <= p
    ensures x * p <= y * p
  {
  }

  lemma RearrangedBack(f: seq<int>, g: seq<int>, lo: int, hi: int)
    requires Rearranged(f, g, lo, hi)
    ensures Rearranged(g, f, lo, hi)
  {
  }

  // ---- data that comes in pieces ----

  ghost function Flatten<T>(chunks: seq<seq<T>>): seq<T> {
    if chunks == [] then [] else chunks[0] + Flatten(chunks[1..])
  }

  lemma FlattenNone<T>()
    ensures Flatten<T>([]) == []
  {
  }

  lemma {:induction false} FlattenConcat<T>(a: seq<seq<T>>, b: seq<seq<T>>)
    ensures Flatten(a + b) == Flatten(a) + Flatten(b)
  {
    if a == [] {
      assert a + b == b;
    } else {
      assert (a + b)[1..] == a[1..] + b;
      FlattenConcat(a[1..], b);
    }
  }

  lemma FlattenMore<T>(chunks: seq<seq<T>>, last: seq<T>)
    ensures Flatten(chunks + [last]) == Flatten(chunks) + last
  {
    FlattenConcat(chunks, [last]);
    assert [last][1..] == [];
  }
}
