/** The idea behind step 2 of mainSort, without the arrays: scanning a big bucket in rotation order and
    collecting the predecessors yields every small bucket [t, ss] in rotation order, including, by way
    of a queue that feeds itself, the bucket [ss, ss]. The scan from the right is the same with the
    ranks negated. */
module CopyScan {
  import opened Permutations
  import opened Rotations

  /** The rotation one byte later, and one byte earlier. */
  function Succ(x: int, n: int): int {
    if x + 1 < n then x + 1 else 0
  }

  function Pred(x: int, n: int): int {
    if x - 1 < 0 then x - 1 + n else x - 1
  }

  /** ky orders the rotations, or orders them the other way round: all that matters is that putting
      the same byte in front keeps the order. */
  ghost predicate Orders(b: seq<Byte>, ky: seq<int>)
    requires |b| > 0
  {
    && |ky| == |b|
    && forall x, y {:trigger b[x], b[y]} | 0 <= x < |b| && 0 <= y < |b| && b[x] == b[y] ::
         ky[x] <= ky[y] <==> ky[Succ(x, |b|)] <= ky[Succ(y, |b|)]
  }

  lemma PrependKeepsOrder(b: seq<Byte>, rk: seq<int>, x: int, y: int)
    requires |b| > 0 && Ranks(b, |b|, rk)
    requires 0 <= x < |b| && 0 <= y < |b| && b[x] == b[y]
    ensures rk[x] <= rk[y] <==> rk[Succ(x, |b|)] <= rk[Succ(y, |b|)]
  {
    hide Ranks, Cmp;
    var n := |b|;
    assert At(b, x) == At(b, y);
    CmpPrepend(b, x, y);
    CmpWrap(b, x + 1, y + 1, n);
    RanksEqual(b, n, rk, x, y);
    RanksEqual(b, n, rk, Succ(x, n), Succ(y, n));
  }

  lemma RanksOrder(b: seq<Byte>, rk: seq<int>)
    requires |b| > 0 && Ranks(b, |b|, rk) && |rk| == |b|
    ensures Orders(b, rk)
    ensures Orders(b, Negated(rk))
  {
    hide Ranks;
    var n := |b|;
    forall x, y | 0 <= x < n && 0 <= y < n && b[x] == b[y]
      ensures rk[x] <= rk[y] <==> rk[Succ(x, n)] <= rk[Succ(y, n)]
    {
      PrependKeepsOrder(b, rk, x, y);
    }
    var ky := Negated(rk);
    forall x, y | 0 <= x < n && 0 <= y < n && b[x] == b[y]
      ensures ky[x] <= ky[y] <==> ky[Succ(x, n)] <= ky[Succ(y, n)]
    {
      PrependKeepsOrder(b, rk, y, x);
    }
  }

  ghost function Negated(rk: seq<int>): (ky: seq<int>)
    ensures |ky| == |rk| && forall i | 0 <= i < |rk| :: ky[i] == -rk[i]
  {
    seq(|rk|, i requires 0 <= i < |rk| => -rk[i])
  }

  lemma SuccPred(x: int, n: int)
    requires 0 <= x < n
    ensures 0 <= Pred(x, n) < n && 0 <= Succ(x, n) < n
    ensures Succ(Pred(x, n), n) == x && Pred(Succ(x, n), n) == x
  {
  }

  ghost predicate InRange(s: seq<int>, n: int) {
    forall i | 0 <= i < |s| :: 0 <= s[i] < n
  }

  /** s ascends by ky. */
  ghost predicate AscendingBy(ky: seq<int>, s: seq<int>)
    requires InRange(s, |ky|)
  {
    forall i, j | 0 <= i < j < |s| :: ky[s[i]] <= ky[s[j]]
  }

  /** The predecessors, among the rotations seen, that start with byte t, in the order seen. */
  ghost function Preds(b: seq<Byte>, seen: seq<int>, t: int): (r: seq<int>)
    requires InRange(seen, |b|)
    ensures InRange(r, |b|) && |r| <= |seen|
  {
    if seen == [] then []
    else
      var front, k := seen[..|seen| - 1], Pred(seen[|seen| - 1], |b|);
      Preds(b, front, t) + if b[k] == t then [k] else []
  }

  lemma PredsStep(b: seq<Byte>, seen: seq<int>, x: int, t: int)
    requires InRange(seen, |b|) && 0 <= x < |b|
    ensures InRange(seen + [x], |b|)
    ensures Preds(b, seen + [x], t) == Preds(b, seen, t) + if b[Pred(x, |b|)] == t then [Pred(x, |b|)] else []
  {
    assert (seen + [x])[..|seen|] == seen;
  }

  lemma {:induction false} PredsMember(b: seq<Byte>, seen: seq<int>, t: int, k: int)
    requires InRange(seen, |b|)
    ensures k in Preds(b, seen, t) <==> 0 <= k < |b| && b[k] == t && Succ(k, |b|) in seen
    decreases |seen|
  {
    if seen != [] {
      var front, x := seen[..|seen| - 1], seen[|seen| - 1];
      assert seen == front + [x];
      PredsMember(b, front, t, k);
      PredsStep(b, front, x, t);
      SuccPred(x, |b|);
      if 0 <= k < |b| { SuccPred(k, |b|); }
    }
  }

  lemma {:induction false} PredsDistinct(b: seq<Byte>, seen: seq<int>, t: int)
    requires InRange(seen, |b|) && NoDuplicates(seen)
    ensures NoDuplicates(Preds(b, seen, t))
    decreases |seen|
  {
    if seen != [] {
      var front, x := seen[..|seen| - 1], seen[|seen| - 1];
      assert seen == front + [x];
      PredsDistinct(b, front, t);
      PredsStep(b, front, x, t);
      SuccPred(x, |b|);
      PredsMember(b, front, t, Pred(x, |b|));
      assert x !in front;
    }
  }

  lemma {:induction false} PredsAscending(b: seq<Byte>, ky: seq<int>, seen: seq<int>, t: int)
    requires |b| > 0 && Orders(b, ky) && InRange(seen, |b|) && AscendingBy(ky, seen)
    ensures AscendingBy(ky, Preds(b, seen, t))
    decreases |seen|
  {
    if seen != [] {
      var front, x := seen[..|seen| - 1], seen[|seen| - 1];
      assert seen == front + [x];
      PredsAscending(b, ky, front, t);
      PredsStep(b, front, x, t);
      var r, k := Preds(b, front, t), Pred(x, |b|);
      SuccPred(x, |b|);
      if b[k] == t {
        forall i | 0 <= i < |r| ensures ky[r[i]] <= ky[k] {
          PredsMember(b, front, t, r[i]);
          assert r[i] in r;
        }
      }
    }
  }

  lemma {:induction false} PredsConcat(b: seq<Byte>, s1: seq<int>, s2: seq<int>, t: int)
    requires InRange(s1, |b|) && InRange(s2, |b|)
    ensures Preds(b, s1 + s2, t) == Preds(b, s1, t) + Preds(b, s2, t)
    decreases |s2|
  {
    if s2 == [] {
      assert s1 + s2 == s1;
    } else {
      var front, x := s2[..|s2| - 1], s2[|s2| - 1];
      assert s2 == front + [x] && s1 + s2 == (s1 + front) + [x];
      PredsConcat(b, s1, front, t);
      PredsStep(b, s1 + front, x, t);
      PredsStep(b, front, x, t);
    }
  }

  // ---- the queue ----

  /** x starts with ss and comes after its own successor, so its successor is scanned before it. */
  ghost predicate Follows(b: seq<Byte>, ky: seq<int>, ss: int, x: int)
    requires |b| > 0 && |ky| == |b|
  {
    0 <= x < |b| && b[x] == ss && ky[Succ(x, |b|)] < ky[x]
  }

  /** base lists, in order, the part of the big bucket that is sorted before the scan begins: the
      followers whose second byte is not ss. They come before every rotation that starts with ss ss. */
  ghost predicate BaseOk(b: seq<Byte>, ky: seq<int>, ss: int, base: seq<int>)
    requires |b| > 0
  {
    && |ky| == |b| && Orders(b, ky)
    && InRange(base, |b|) && NoDuplicates(base) && AscendingBy(ky, base)
    && BaseFollows(b, ky, ss, base)
    && BaseComplete(b, ky, ss, base)
    && BaseFirst(b, ky, ss, base)
  }

  ghost predicate BaseFollows(b: seq<Byte>, ky: seq<int>, ss: int, base: seq<int>)
    requires |b| > 0 && |ky| == |b|
  {
    forall i | 0 <= i < |base| :: Follows(b, ky, ss, base[i]) && b[Succ(base[i], |b|)] != ss
  }

  ghost predicate BaseComplete(b: seq<Byte>, ky: seq<int>, ss: int, base: seq<int>)
    requires |b| > 0 && |ky| == |b|
  {
    forall x | 0 <= x < |b| && Follows(b, ky, ss, x) && b[Succ(x, |b|)] != ss :: x in base
  }

  ghost predicate BaseFirst(b: seq<Byte>, ky: seq<int>, ss: int, base: seq<int>)
    requires |b| > 0 && |ky| == |b| && InRange(base, |b|)
  {
    forall i, x | 0 <= i < |base| && 0 <= x < |b| && b[x] == ss && b[Succ(x, |b|)] == ss :: ky[base[i]] <= ky[x]
  }

  /** The queue: the base, then the members of [ss, ss] collected so far. */
  ghost function Queue(b: seq<Byte>, ss: int, base: seq<int>, seen: seq<int>): (r: seq<int>)
    requires InRange(base, |b|) && InRange(seen, |b|)
    ensures InRange(r, |b|)
  {
    base + Preds(b, seen, ss)
  }

  ghost predicate QueueOk(b: seq<Byte>, ky: seq<int>, ss: int, base: seq<int>, seen: seq<int>)
    requires |b| > 0
  {
    && BaseOk(b, ky, ss, base)
    && InRange(seen, |b|)
    && seen <= Queue(b, ss, base, seen)
    && NoDuplicates(Queue(b, ss, base, seen))
    && AscendingBy(ky, Queue(b, ss, base, seen))
    && forall i | 0 <= i < |Queue(b, ss, base, seen)| :: Follows(b, ky, ss, Queue(b, ss, base, seen)[i])
  }

  lemma QueueStarts(b: seq<Byte>, ky: seq<int>, ss: int, base: seq<int>)
    requires |b| > 0 && BaseOk(b, ky, ss, base)
    ensures QueueOk(b, ky, ss, base, [])
  {
    hide Orders;
    assert Queue(b, ss, base, []) == base;
  }

  lemma QueueBasics(b: seq<Byte>, ky: seq<int>, ss: int, base: seq<int>, seen: seq<int>)
    requires |b| > 0 && QueueOk(b, ky, ss, base, seen)
    ensures InRange(base, |b|) && InRange(seen, |b|) && seen <= Queue(b, ss, base, seen)
    ensures NoDuplicates(seen) && |ky| == |b| && AscendingBy(ky, seen) && Orders(b, ky)
    ensures forall i | 0 <= i < |seen| :: Follows(b, ky, ss, seen[i])
  {
    hide Orders;
    var q := Queue(b, ss, base, seen);
    assert forall i | 0 <= i < |seen| :: seen[i] == q[i];
    assert AscendingBy(ky, q) && NoDuplicates(q);
  }

  /** The predecessor of a follower, if it also starts with ss, is a follower and comes after it. */
  lemma FollowerBefore(b: seq<Byte>, ky: seq<int>, ss: int, x: int)
    requires |b| > 0 && Orders(b, ky) && Follows(b, ky, ss, x)
    requires b[Pred(x, |b|)] == ss
    ensures Follows(b, ky, ss, Pred(x, |b|)) && 0 <= x < |b| && b[x] == ss
  {
    SuccPred(x, |b|);
  }

  /** Seeing the next entry of the queue keeps the queue in order. */
  lemma QueueStep(b: seq<Byte>, ky: seq<int>, ss: int, base: seq<int>, seen: seq<int>)
    requires |b| > 0 && QueueOk(b, ky, ss, base, seen)
    requires |seen| < |Queue(b, ss, base, seen)|
    ensures QueueOk(b, ky, ss, base, seen + [Queue(b, ss, base, seen)[|seen|]])
  {
    hide Orders, NoDuplicates, AscendingBy, Follows;
    var n, q := |b|, Queue(b, ss, base, seen);
    var x := q[|seen|];
    var seen', k := seen + [x], Pred(x, n);
    PredsStep(b, seen, x, ss);
    SuccPred(x, n);
    QueueBasics(b, ky, ss, base, seen);
    if b[k] == ss {
      assert Follows(b, ky, ss, x);
      FollowerBefore(b, ky, ss, x);
      assert Queue(b, ss, base, seen') == q + [k];
      PrefixAscends(ky, q, seen, x);
      PrefixDistinct(q, seen);
      NewEntryFits(b, ky, ss, base, seen, x, k);
      QueueExtends(b, ky, ss, q, k);
    } else {
      assert Queue(b, ss, base, seen') == q;
    }
    assert seen' == q[..|seen| + 1];
  }

  lemma PrefixAscends(ky: seq<int>, q: seq<int>, seen: seq<int>, x: int)
    requires InRange(q, |ky|) && AscendingBy(ky, q) && seen <= q && |seen| < |q| && x == q[|seen|]
    ensures InRange(seen, |ky|) && forall i | 0 <= i < |seen| :: ky[seen[i]] <= ky[x]
  {
    assert forall i | 0 <= i < |seen| :: seen[i] == q[i];
  }

  lemma PrefixDistinct(q: seq<int>, seen: seq<int>)
    requires NoDuplicates(q) && seen <= q && |seen| < |q|
    ensures q[|seen|] !in seen
  {
    assert forall i | 0 <= i < |seen| :: seen[i] == q[i];
  }

  lemma NewEntryFits(b: seq<Byte>, ky: seq<int>, ss: int, base: seq<int>, seen: seq<int>, x: int, k: int)
    requires |b| > 0 && BaseOk(b, ky, ss, base) && InRange(seen, |b|)
    requires 0 <= x < |b| && k == Pred(x, |b|) && b[k] == ss && b[x] == ss && x !in seen
    requires forall i | 0 <= i < |seen| :: ky[seen[i]] <= ky[x]
    ensures var q := Queue(b, ss, base, seen);
            k !in q && forall i | 0 <= i < |q| :: ky[q[i]] <= ky[k]
  {
    var n, q := |b|, Queue(b, ss, base, seen);
    SuccPred(x, n);
    PredsMember(b, seen, ss, k);
    forall i | 0 <= i < |q| ensures ky[q[i]] <= ky[k] {
      if i >= |base| {
        var p := Preds(b, seen, ss)[i - |base|];
        assert p in Preds(b, seen, ss);
        PredsMember(b, seen, ss, p);
        assert ky[Succ(p, n)] <= ky[Succ(k, n)];
      }
    }
  }

  lemma QueueExtends(b: seq<Byte>, ky: seq<int>, ss: int, q: seq<int>, k: int)
    requires |b| > 0 && |ky| == |b| && InRange(q, |b|)
    requires NoDuplicates(q) && AscendingBy(ky, q) && forall i | 0 <= i < |q| :: Follows(b, ky, ss, q[i])
    requires Follows(b, ky, ss, k) && k !in q && forall i | 0 <= i < |q| :: ky[q[i]] <= ky[k]
    ensures InRange(q + [k], |b|) && NoDuplicates(q + [k]) && AscendingBy(ky, q + [k])
    ensures forall i | 0 <= i < |q + [k]| :: Follows(b, ky, ss, (q + [k])[i])
  {
  }

  /** Once the queue is exhausted, every follower has been seen. */
  lemma {:induction false} QueueComplete(b: seq<Byte>, ky: seq<int>, ss: int, base: seq<int>, seen: seq<int>,
                                         floor: int, x: int)
    requires |b| > 0 && QueueOk(b, ky, ss, base, seen)
    requires seen == Queue(b, ss, base, seen)
    requires forall y | 0 <= y < |b| :: floor <= ky[y]
    requires Follows(b, ky, ss, x)
    ensures x in seen
    decreases ky[x] - floor
  {
    hide Orders, NoDuplicates, AscendingBy;
    QueueBasics(b, ky, ss, base, seen);
    var n := |b|;
    var x' := Succ(x, n);
    if b[x'] != ss {
      assert x in base;
      assert x in base + Preds(b, seen, ss);
    } else {
      assert Follows(b, ky, ss, x') by { FollowerAfter(b, ky, ss, x); }
      QueueComplete(b, ky, ss, base, seen, floor, x');
      PredsMember(b, seen, ss, x);
      assert x in base + Preds(b, seen, ss);
    }
  }

  lemma FollowerAfter(b: seq<Byte>, ky: seq<int>, ss: int, x: int)
    requires |b| > 0 && Orders(b, ky) && Follows(b, ky, ss, x) && b[Succ(x, |b|)] == ss
    ensures Follows(b, ky, ss, Succ(x, |b|))
  {
    var x' := Succ(x, |b|);
    assert ky[x] <= ky[x'] <==> ky[Succ(x, |b|)] <= ky[Succ(x', |b|)];
  }

  // ---- both directions ----

  /** With ranks: a rotation that follows its successor precedes one that precedes its successor. */
  lemma {:induction false} LowBeforeHigh(b: seq<Byte>, rk: seq<int>, ss: int, x: int, y: int)
    requires |b| > 0 && Ranks(b, |b|, rk) && Orders(b, rk)
    requires forall z | 0 <= z < |b| :: 0 <= rk[z]
    requires Follows(b, rk, ss, x)
    requires 0 <= y < |b| && b[y] == ss && rk[y] < rk[Succ(y, |b|)]
    ensures rk[x] < rk[y]
    decreases rk[x]
  {
    var n := |b|;
    if rk[y] <= rk[x] {
      var x', y' := Succ(x, n), Succ(y, n);
      assert rk[y'] <= rk[x'];
      FirstByteOrder(b, rk, y', x');
      FirstByteOrder(b, rk, x', x);
      FirstByteOrder(b, rk, y, y');
      FollowerAfter(b, rk, ss, x);
      assert rk[y] <= rk[y'] <==> rk[y'] <= rk[Succ(y', n)];
      assert rk[y'] <= rk[y] <==> rk[Succ(y', n)] <= rk[y'];
      LowBeforeHigh(b, rk, ss, x', y');
    }
  }

  lemma FirstByteOrder(b: seq<Byte>, rk: seq<int>, x: int, y: int)
    requires |b| > 0 && Ranks(b, |b|, rk)
    requires 0 <= x < |b| && 0 <= y < |b| && rk[x] <= rk[y]
    ensures b[x] <= b[y]
  {
    RanksEqual(b, |b|, rk, x, y);
    assert At(b, x) == b[x] && At(b, y) == b[y];
  }

  /** Only in a block of one repeated byte does a rotation equal its successor. */
  lemma {:induction false} FlatRun(b: seq<Byte>, x: nat, h: nat, m: nat)
    requires |b| > 0 && Cmp(b, x, x + 1, h) == 0 && m <= h
    ensures At(b, x + m) == At(b, x)
    decreases m
  {
    if m > 0 {
      FlatRun(b, x, h, m - 1);
      EqualBytes(b, x, x + 1, h, m - 1);
      assert x + 1 + (m - 1) == x + m;
    }
  }

  lemma FlatMeansConstant(b: seq<Byte>, rk: seq<int>, x: int)
    requires |b| > 0 && Ranks(b, |b|, rk) && 0 <= x < |b|
    requires rk[Succ(x, |b|)] == rk[x]
    ensures forall i | 0 <= i < |b| :: b[i] == b[x]
    ensures forall i, j | 0 <= i < |b| && 0 <= j < |b| :: rk[i] == rk[j]
  {
    var n := |b|;
    RanksEqual(b, n, rk, x, Succ(x, n));
    CmpWrap(b, x, x + 1, n);
    forall i | 0 <= i < n ensures b[i] == b[x] {
      if i >= x {
        FlatRun(b, x, n, i - x);
        assert At(b, i) == b[i];
      } else {
        FlatRun(b, x, n, i + n - x);
        AtPeriodic(b, i);
      }
    }
    forall i, j | 0 <= i < n && 0 <= j < n ensures rk[i] == rk[j] {
      ConstantCmp(b, i, j, n, b[x]);
      RanksEqual(b, n, rk, i, j);
    }
  }

  lemma {:induction false} ConstantAt(b: seq<Byte>, i: nat, c: int)
    requires |b| > 0 && forall k | 0 <= k < |b| :: b[k] == c
    ensures At(b, i) == c
    decreases i
  {
    if i >= |b| { ConstantAt(b, i - |b|, c); }
  }

  lemma {:induction false} ConstantCmp(b: seq<Byte>, i: nat, j: nat, h: nat, c: int)
    requires |b| > 0 && forall k | 0 <= k < |b| :: b[k] == c
    ensures Cmp(b, i, j, h) == 0
    decreases h
  {
    ConstantAt(b, i, c);
    ConstantAt(b, j, c);
    if h > 0 { ConstantCmp(b, i + 1, j + 1, h - 1, c); }
  }
}
