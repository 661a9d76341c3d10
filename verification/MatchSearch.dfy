/** What longest_match is after: of some candidates, the one that agrees longest with the string at p, and of those the
    first; and how far down the list it looks. */
module MatchSearch {
  import opened Permutations
  import opened LzSymbols

  /** n equal bytes at two window positions. */
  ghost predicate SameBytes(w: seq<Byte>, a: int, b: int, n: int) {
    && 0 <= a <= b && 0 <= n && b + n <= |w|
    && forall k | b <= k < b + n :: w[k] == w[k - (b - a)]
  }

  /** How far the strings at a and b agree, at most MAX_MATCH bytes, if they agree for n. */
  ghost function Common(w: seq<Byte>, a: int, b: int, n: nat): (r: nat)
    requires 0 <= a < b && b + MAX_MATCH <= |w| && n <= MAX_MATCH
    ensures n <= r <= MAX_MATCH
    decreases MAX_MATCH - n
  {
    if n == MAX_MATCH || w[a + n] != w[b + n] then n else Common(w, a, b, n + 1)
  }

  ghost function Agreement(w: seq<Byte>, a: int, b: int): (r: nat)
    ensures r <= MAX_MATCH
  {
    if 0 <= a < b && b + MAX_MATCH <= |w| then Common(w, a, b, 0) else 0
  }

  /** Equal bytes, and then different ones or no more to compare, tell it. */
  lemma {:induction false} AgreementIs(w: seq<Byte>, a: int, b: int, n: nat, m: nat)
    requires 0 <= a < b && b + MAX_MATCH <= |w| && m <= n <= MAX_MATCH && SameBytes(w, a, b, n)
    requires n == MAX_MATCH || w[a + n] != w[b + n]
    ensures Common(w, a, b, m) == n
    decreases n - m
  {
    if m < n {
      assert w[b + m] == w[b + m - (b - a)];
      AgreementIs(w, a, b, n, m + 1);
    }
  }

  /** Strings that differ in a byte agree no further. */
  lemma {:induction false} AgreementEnds(w: seq<Byte>, a: int, b: int, k: nat, m: nat)
    requires 0 <= a < b && b + MAX_MATCH <= |w| && m <= k < MAX_MATCH && w[a + k] != w[b + k]
    ensures Common(w, a, b, m) <= k
    decreases k - m
  {
    if m < k { AgreementEnds(w, a, b, k, m + 1); }
  }

  // ---- what a search finds ----

  /** The candidates up to the first one that improves on prevLen and is nice enough. */
  ghost function UpToNice(cands: seq<int>, w: seq<Byte>, p: int, prevLen: nat, nice: int): seq<int> {
    if cands == [] then []
    else if Agreement(w, cands[0], p) > prevLen && Agreement(w, cands[0], p) >= nice then [cands[0]]
    else [cands[0]] + UpToNice(cands[1..], w, p, prevLen, nice)
  }

  /** best is the furthest that any candidate agrees with the string at p, or prevLen if none does better; start is the
      first candidate that agrees as far. */
  ghost predicate IsLongest(cands: seq<int>, w: seq<Byte>, p: int, prevLen: nat, start0: int, best: nat, start: int) {
    && best >= prevLen && (forall k | 0 <= k < |cands| :: Agreement(w, cands[k], p) <= best)
    && (best == prevLen ==> start == start0)
    && (best > prevLen ==> exists k :: 0 <= k < |cands| && IsFirst(cands, k, w, p, best) && start == cands[k])
  }

  ghost predicate IsFirst(cands: seq<int>, k: int, w: seq<Byte>, p: int, best: nat)
    requires 0 <= k < |cands|
  {
    Agreement(w, cands[k], p) == best && forall j | 0 <= j < k :: Agreement(w, cands[j], p) < best
  }

  /** None of the candidates ended the search. */
  ghost predicate NoneNice(cands: seq<int>, w: seq<Byte>, p: int, prevLen: nat, nice: int) {
    forall k | 0 <= k < |cands| :: Agreement(w, cands[k], p) <= prevLen || Agreement(w, cands[k], p) < nice
  }

  lemma {:induction false} BeforeNice(seen: seq<int>, rest: seq<int>, w: seq<Byte>, p: int, prevLen: nat, nice: int)
    requires NoneNice(seen, w, p, prevLen, nice)
    ensures UpToNice(seen + rest, w, p, prevLen, nice) == seen + UpToNice(rest, w, p, prevLen, nice)
  {
    if seen == [] {
      assert seen + rest == rest;
    } else {
      assert (seen + rest)[1..] == seen[1..] + rest;
      BeforeNice(seen[1..], rest, w, p, prevLen, nice);
    }
  }

  lemma LongestBound(seen: seq<int>, w: seq<Byte>, p: int, prevLen: nat, start0: int, best: nat, start: int)
    requires IsLongest(seen, w, p, prevLen, start0, best, start)
    ensures best >= prevLen && forall k | 0 <= k < |seen| :: Agreement(w, seen[k], p) <= best
  {
  }

  /** One more candidate. */
  lemma LongestMore(seen: seq<int>, cur: int, w: seq<Byte>, p: int, prevLen: nat, start0: int, best: nat, start: int)
    requires IsLongest(seen, w, p, prevLen, start0, best, start)
    ensures var a := Agreement(w, cur, p);
            IsLongest(seen + [cur], w, p, prevLen, start0, if a > best then a else best,
                      if a > best then cur else start)
  {
    hide Agreement;
    var a, all := Agreement(w, cur, p), seen + [cur];
    if a > best {
      assert IsFirst(all, |seen|, w, p, a);
    } else if best > prevLen {
      var k :| 0 <= k < |seen| && IsFirst(seen, k, w, p, best) && start == seen[k];
      assert IsFirst(all, k, w, p, best) && all[k] == start;
    }
  }

  // ---- bytes beyond the data do not matter ----

  function Capped(n: nat, ahead: nat): nat { if n <= ahead then n else ahead }

  /** Two windows that are the same up to the end of the data, ahead bytes from p on. */
  ghost predicate SameUpTo(w: seq<Byte>, w': seq<Byte>, p: int, ahead: nat) {
    0 <= p && p + MAX_MATCH <= |w| == |w'| && p + ahead <= |w| && w'[..p + ahead] == w[..p + ahead]
  }

  lemma {:induction false} CommonCapped(w: seq<Byte>, w': seq<Byte>, c: int, p: int, ahead: nat, n: nat)
    requires SameUpTo(w, w', p, ahead) && 0 <= c < p && n <= MAX_MATCH
    ensures Capped(Common(w', c, p, n), ahead) == Capped(Common(w, c, p, n), ahead)
    decreases MAX_MATCH - n
  {
    if n < MAX_MATCH && n < ahead {
      assert w'[..p + ahead][c + n] == w[..p + ahead][c + n] && w'[..p + ahead][p + n] == w[..p + ahead][p + n];
      CommonCapped(w, w', c, p, ahead, n + 1);
    }
  }

  lemma AgreementCapped(w: seq<Byte>, w': seq<Byte>, c: int, p: int, ahead: nat)
    requires SameUpTo(w, w', p, ahead)
    ensures Capped(Agreement(w', c, p), ahead) == Capped(Agreement(w, c, p), ahead)
  {
    hide Common;
    if 0 <= c < p { CommonCapped(w, w', c, p, ahead, 0); }
  }

  /** The search ends at the same candidate. */
  lemma {:induction false} SameUpToNice(cands: seq<int>, w: seq<Byte>, w': seq<Byte>, p: int, ahead: nat, prevLen: nat,
                                        nice: int)
    requires SameUpTo(w, w', p, ahead) && prevLen < ahead && nice <= ahead
    ensures UpToNice(cands, w', p, prevLen, nice) == UpToNice(cands, w, p, prevLen, nice)
  {
    hide Agreement, SameUpTo;
    if cands != [] {
      AgreementCapped(w, w', cands[0], p, ahead);
      SameUpToNice(cands[1..], w, w', p, ahead, prevLen, nice);
    }
  }

  /** All candidates but the last are not nice enough to end the search. */
  lemma {:induction false} OnlyLastNice(cands: seq<int>, w: seq<Byte>, p: int, prevLen: nat, nice: int)
    ensures var l := UpToNice(cands, w, p, prevLen, nice);
            l == [] || NoneNice(l[..|l| - 1], w, p, prevLen, nice)
  {
    hide Agreement;
    if cands != [] {
      OnlyLastNice(cands[1..], w, p, prevLen, nice);
      var l, rest := UpToNice(cands, w, p, prevLen, nice), UpToNice(cands[1..], w, p, prevLen, nice);
      if l != [cands[0]] {
        assert l == [cands[0]] + rest && rest != [] && l[..|l| - 1] == [cands[0]] + rest[..|rest| - 1];
      }
    }
  }

  /** So the best match, as far as there is data, is the same, and where it starts if it improves on prevLen. */
  lemma UnseenBytes(cands: seq<int>, w: seq<Byte>, w': seq<Byte>, p: int, ahead: nat, prevLen: nat, nice: int,
                    start0: int, best: nat, start: int, best': nat, start': int)
    requires SameUpTo(w, w', p, ahead) && nice <= ahead
    requires IsLongest(UpToNice(cands, w, p, prevLen, nice), w, p, prevLen, start0, best, start)
    requires IsLongest(UpToNice(cands, w', p, prevLen, nice), w', p, prevLen, start0, best', start')
    ensures Capped(best', ahead) == Capped(best, ahead) && (prevLen < ahead ==> start' == start)
  {
    hide Agreement, SameUpTo, UpToNice;
    if prevLen < ahead {
      var l := UpToNice(cands, w, p, prevLen, nice);
      SameUpToNice(cands, w, w', p, ahead, prevLen, nice);
      OnlyLastNice(cands, w, p, prevLen, nice);
      forall k | 0 <= k < |l|
        ensures Capped(Agreement(w', l[k], p), ahead) == Capped(Agreement(w, l[k], p), ahead) {
        AgreementCapped(w, w', l[k], p, ahead);
      }
      SameLongest(l, w, w', p, ahead, prevLen, nice, start0, best, start, best', start');
    }
  }

  lemma SameLongest(l: seq<int>, w: seq<Byte>, w': seq<Byte>, p: int, ahead: nat, prevLen: nat, nice: int,
                    start0: int, best: nat, start: int, best': nat, start': int)
    requires prevLen < ahead && nice <= ahead && (l == [] || NoneNice(l[..|l| - 1], w, p, prevLen, nice))
    requires forall k | 0 <= k < |l| ::
               Capped(Agreement(w', l[k], p), ahead) == Capped(Agreement(w, l[k], p), ahead)
    requires IsLongest(l, w, p, prevLen, start0, best, start) && IsLongest(l, w', p, prevLen, start0, best', start')
    ensures Capped(best', ahead) == Capped(best, ahead) && start' == start
  {
    hide Agreement;
    if l != [] {
      var n := |l| - 1;
      forall k | 0 <= k < n
        ensures Agreement(w, l[k], p) <= prevLen || Agreement(w, l[k], p) < nice
        ensures Agreement(w', l[k], p) == Agreement(w, l[k], p) {
        assert l[..n][k] == l[k];
      }
    }
  }
}
