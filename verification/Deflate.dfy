/** deflate_slow: splitting the input into literals and copies, with lazy matching over hash chains in a
    window that slides. */
module Deflate {
  import opened Permutations
  import opened Bits
  import opened InflateSpec
  import opened HashKeys
  import opened HashChains
  import opened LzSymbols
  import opened MatchSearch

  const MIN_LOOKAHEAD := MAX_MATCH + MIN_MATCH + 1
  const TOO_FAR := 4096
  const WIN_INIT := MAX_MATCH
  const NIL := 0

  datatype Flush = NO_FLUSH | PARTIAL_FLUSH | SYNC_FLUSH | FULL_FLUSH | FINISH | BLOCK

  /** Where deflate stands: slid bytes of the data have left the window, the string at p is next, and ahead bytes are
      there from p on; ins are the strings in the dictionary, and the last `left` before p are still to be entered; the
      byte before p may be waiting, and a match of this length may have been found for it. */
  datatype Situation =
    Situation(slid: int, p: int, ahead: int, ins: set<int>, left: int, waiting: bool, len: nat, start: int)

  /** What it does: a turn of the loop, with the window as it is and what the search finds; filling the window; putting
      out the byte that waits when the input has ended; forgetting the history. */
  datatype Event = Turn(w: seq<Byte>, len: nat, start: int) | Fill(ahead: int) | LastByte(c: Byte) | Forget

  datatype BlockState = NeedMore | BlockDone | FinishStarted | FinishDone

  /** Equal bytes in the window are equal bytes of the input. */
  lemma SameIsMatch(w: seq<Byte>, data: seq<Byte>, slid: nat, end: int, a: int, b: int, n: int, m: int)
    requires 0 <= end <= |w| && |data| == slid + end && w[..end] == data[slid..]
    requires SameBytes(w, a, b, n) && a < b && 0 <= m <= n && b + m <= end
    ensures IsMatch(data, slid + b, b - a, m)
  {
    forall k | slid + b <= k < slid + b + m ensures data[k] == data[k - (b - a)] {
      assert w[..end][k - slid] == data[slid..][k - slid];
      assert w[..end][k - slid - (b - a)] == data[slid..][k - slid - (b - a)];
    }
  }

  lemma Sizes(windowBits: nat, memLevel: nat)
    requires 9 <= windowBits && 1 <= memLevel
    ensures Pow2(windowBits) >= 512 && Pow2(memLevel + 6) >= 128
  {
    assert Pow2(7) == 128;
    Pow2Add(7, 2);
    Pow2Monotonic(9, windowBits);
    Pow2Monotonic(7, memLevel + 6);
  }

  lemma NoSymbols(maxDist: int)
    ensures Sound([], maxDist) && Expand([]) == []
  {
  }

  lemma MatchWithin(data: seq<Byte>, pos: int, dist: int, n: int)
    requires IsMatch(data, pos, dist, n)
    ensures 0 < dist <= pos && 0 <= n && pos + n <= |data|
  {
  }

  lemma MatchGrows(data: seq<Byte>, more: seq<Byte>, pos: int, dist: int, n: int)
    requires IsMatch(data, pos, dist, n)
    ensures IsMatch(data + more, pos, dist, n)
  {
  }

  /** A match of len bytes awaits, for the string before the one at pos; back is where it starts. */
  ghost predicate Awaits(data: seq<Byte>, available: bool, ahead: nat, maxDist: int, len: nat, back: int, pos: int) {
    && 2 <= len <= MAX_MATCH
    && (len >= MIN_MATCH ==>
          available && len <= ahead + 1 && -1 - back <= maxDist && IsMatch(data, pos - 1, -1 - back, len))
  }

  lemma AwaitsGrows(data: seq<Byte>, available: bool, ahead: nat, maxDist: int, len: nat, back: int, pos: int,
                    more: seq<Byte>)
    requires Awaits(data, available, ahead, maxDist, len, back, pos)
    ensures Awaits(data + more, available, ahead + |more|, maxDist, len, back, pos)
  {
    hide IsMatch;
    if len >= MIN_MATCH { MatchGrows(data, more, pos - 1, -1 - back, len); }
  }

  /** More data behind what the window holds. */
  lemma GrownData(w: seq<Byte>, w': seq<Byte>, data: seq<Byte>, chunk: seq<Byte>, slid: nat, end: int, pos: int)
    requires 0 <= end <= |w| == |w'| && |data| == slid + end && w[..end] == data[slid..]
    requires end + |chunk| <= |w'| && w'[..end + |chunk|] == w[..end] + chunk && 0 <= pos <= |data|
    ensures |data + chunk| == slid + end + |chunk| && w'[..end + |chunk|] == (data + chunk)[slid..]
    ensures (data + chunk)[..pos] == data[..pos] && w'[..end] == w[..end]
  {
    assert w'[..end] == w'[..end + |chunk|][..end];
  }

  /** The upper half of a window of 2n bytes has been copied to the lower half. */
  ghost predicate Moved(w: seq<Byte>, w': seq<Byte>, n: nat) {
    |w| == |w'| == 2 * n && w'[..n] == w[n..]
  }

  lemma MovedDown(w: seq<Byte>, w': seq<Byte>, n: nat, p: int, end: int)
    requires Moved(w, w', n) && n <= p <= end <= |w|
    ensures |w'| == |w| && w'[..end - n] == w[n..end]
    ensures p < end ==> w'[p - n] == w[p]
    ensures p + 1 < end ==> w'[p + 1 - n] == w[p + 1]
  {
    assert w'[..end - n] == w'[..n][..end - n];
    if p < end { assert w'[..n][p - n] == w[n..][p - n]; }
    if p + 1 < end { assert w'[..n][p + 1 - n] == w[n..][p + 1 - n]; }
  }

  lemma MovedData(w: seq<Byte>, w': seq<Byte>, n: nat, data: seq<Byte>, slid: nat, end: int)
    requires n <= end <= |w| == |w'| && |data| == slid + end && w[..end] == data[slid..] && w'[..end - n] == w[n..end]
    ensures w'[..end - n] == data[slid + n..]
  {
    assert w[n..end] == w[..end][n..];
  }

  class DeflateState {
    const wsize: nat
    const hashBits: nat
    const hashShift: nat
    const maxLazy: nat
    const goodMatch: nat
    const niceMatch: int
    const maxChain: nat
    const filtered: bool
    const window: array<Byte>
    const prev: array<int>
    const head: array<int>
    const dBuf: array<int>
    const lBuf: array<int>

    // the input at hand: next_in and avail_in
    var input: seq<Byte>
    var next: nat

    var insH: nat
    var blockStart: int
    var matchLength: nat
    var prevMatch: int
    var matchAvailable: bool
    var strstart: nat
    var matchStart: int
    var lookahead: nat
    var prevLength: nat
    var lastLit: nat
    var insert: nat
    var highWater: nat

    /** FINISH_STATE: the last block has been begun. */
    var finished: bool

    /** All the input read, and how much of it has slid out of the window. */
    ghost var data: seq<Byte>
    ghost var slid: nat

    /** The window positions in the dictionary, and the symbols so far, of which sent are in finished blocks. */
    ghost var ins: set<int>
    ghost var symbols: seq<Symbol>
    ghost var sent: nat

    /** All that has been done. */
    ghost var events: seq<Event>

    /** deflateInit2_ and lm_init, with the search parameters that a level stands for. */
    constructor (windowBits: nat, memLevel: nat, maxLazy: nat, goodMatch: nat, niceMatch: int, maxChain: nat,
                 filtered: bool)
      requires 9 <= windowBits <= 15 && 1 <= memLevel <= 9 && maxChain >= 4
      ensures Valid() && Narrated() && !finished && data == [] && symbols == [] && fresh(window) && fresh(prev)
              && fresh(head)
      ensures fresh(dBuf) && fresh(lBuf) && wsize == Pow2(windowBits)
    {
      this.wsize, this.hashBits, this.hashShift := Pow2(windowBits), memLevel + 7,
          (memLevel + 7 + MIN_MATCH - 1) / MIN_MATCH;
      this.maxLazy, this.goodMatch, this.niceMatch, this.maxChain, this.filtered := maxLazy, goodMatch, niceMatch,
          maxChain, filtered;
      window, prev := new Byte[2 * Pow2(windowBits)](_ => 0), new int[Pow2(windowBits)](_ => 0);
      head := new int[Pow2(memLevel + 7)](_ => NIL);
      dBuf, lBuf := new int[Pow2(memLevel + 6)], new int[Pow2(memLevel + 6)];
      strstart, blockStart, lookahead, insert, matchLength, prevLength, matchAvailable, insH := 0, 0, 0, 0, 2, 2, false,
          0;
      matchStart, prevMatch, lastLit, highWater, input, next, finished := 0, 0, 0, 0, [], 0, false;
      data, slid, ins, symbols, sent, events := [], 0, {}, [], 0, [];
      new;
      Sizes(windowBits, memLevel);
      Nothing(head[..], prev[..], window[..], 0, 0, hashShift, hashBits);
      NoSymbols(MaxDist());
      assert dBuf[..0] == [] && lBuf[..0] == [] && window[..0] == [];
    }

    function MaxDist(): int { wsize - MIN_LOOKAHEAD }

    ghost predicate Shape() {
      && wsize >= 512 && window.Length == 2 * wsize && prev.Length == wsize && head.Length == Pow2(hashBits)
      && Parameters(hashShift, hashBits) && maxChain >= 4 && dBuf.Length == lBuf.Length >= 3
      && prev != head && dBuf != lBuf && prev != dBuf && prev != lBuf && head != dBuf && head != lBuf
    }

    /** The window holds the data from slid on; end is where the data ends. */
    ghost predicate Located(end: int)
      reads `data, `slid, window
    {
      0 <= end <= window.Length && |data| == slid + end && window[..end] == data[slid..]
    }

    ghost predicate Chained(top: int, end: int)
      reads `ins, window, prev, head
    {
      && Links(prev[..], window[..], ins, top, end, hashShift, hashBits)
      && Heads(head[..], prev.Length, window[..], ins, top, hashShift, hashBits)
    }

    /** The running hash is ready for the string at p. */
    ghost predicate RolledAt(p: int)
      reads `insH, window
    {
      0 <= p && p + 1 < window.Length && Rolled(insH, window[p], window[p + 1], hashShift, hashBits)
    }

    /** All strings in the dictionary start before p. */
    ghost predicate EarlierThan(strings: set<int>, p: int) { forall q | q in strings :: q < p }

    /** Strings at the end that are not in the dictionary yet are at most two; with three bytes ahead
        there are none, and the hash is ready. */
    ghost predicate Ready()
      reads `strstart, `lookahead, `insert, `insH, `ins, window
    {
      && insert <= strstart && insert <= 2 && EarlierThan(ins, strstart - insert)
      && (insert == 0 || lookahead + insert < MIN_MATCH) && (lookahead >= MIN_MATCH ==> RolledAt(strstart))
    }

    /** A match of this length for the string at p, not too far back. */
    ghost predicate MatchAt(p: int, start: int, len: int)
      reads `data, `slid
    {
      p - start <= MaxDist() && IsMatch(data, slid + p, p - start, len)
    }

    /** A match for the string before strstart awaits comparison with the next. */
    ghost predicate Pending()
      reads `matchAvailable, `matchLength, `matchStart, `strstart, `lookahead, `data, `slid
    {
      && 2 <= matchLength <= MAX_MATCH && (matchAvailable ==> strstart >= 1)
      && (matchLength >= MIN_MATCH ==>
            matchAvailable && matchLength <= lookahead + 1 && MatchAt(strstart - 1, matchStart, matchLength))
    }

    /** The symbols expand to the data before pos. */
    ghost predicate Told(pos: int)
      reads `symbols, `data
    {
      0 <= pos <= |data| && Sound(symbols, MaxDist()) && Expand(symbols) == data[..pos]
    }

    /** The buffers hold the symbols of the current block, with room for more. */
    ghost predicate Tallied(room: nat)
      reads `lastLit, `symbols, `sent, dBuf, lBuf
    {
      && lastLit + room <= dBuf.Length && lastLit <= lBuf.Length && sent + lastLit == |symbols|
      && symbols[sent..] == Stored(dBuf[..lastLit], lBuf[..lastLit])
    }

    function Held(): int
      reads `matchAvailable
    {
      if matchAvailable then 1 else 0
    }

    ghost predicate Valid()
      reads `input, `next, `insH, `matchLength, `matchAvailable, `strstart, `matchStart, `lookahead, `lastLit, `insert,
            `data, `slid, `ins, `symbols, `sent, window, prev, head, dBuf, lBuf
    {
      && Shape() && next <= |input|
      && Located(strstart + lookahead) && Chained(strstart, strstart + lookahead) && Ready() && Pending()
      && Told(slid + strstart - Held()) && Tallied(2)
    }

    /** The symbols so far expand to the beginning of the data. */
    lemma Sofar()
      requires Valid()
      ensures Sound(symbols, MaxDist()) && Expand(symbols) <= data
      ensures AllTold() ==> Expand(symbols) == data
    {
    }

    // ---- the dictionary ----

    /** INSERT_STRING. */
    method InsertString(str: nat, ghost top: int, ghost top': int, ghost end: int) returns (matchHead: int)
      requires Shape() && Chained(top, end) && RolledAt(str) && end <= window.Length
      requires str < top' && str + MIN_MATCH <= end && top <= top' <= str + wsize && top' <= top + 1
      requires EarlierThan(ins, str)
      modifies `insH, `ins, prev, head
      ensures Chained(top', end) && RolledAt(str + 1) && ins == old(ins) + {str}
      ensures Links(prev[..], window[..], old(ins), top', end, hashShift, hashBits)
      ensures LinkOk(matchHead, KeyAt(window[..], str, hashShift, hashBits), str, wsize, window[..], old(ins), top',
                     hashShift, hashBits)
    {
      hide Links, Heads, LinkOk, Key, Rolled, Update, Pow2;
      ghost var w, p0, h0 := window[..], prev[..], head[..];
      Insert(h0, p0, w, ins, top, end, hashShift, hashBits, str, top');
      Older(h0, p0, w, ins, top, end, hashShift, hashBits, top');
      RolledKey(insH, window[str], window[str + 1], window[str + 2], hashShift, hashBits);
      RolledOn(window[str], window[str + 1], window[str + 2], hashShift, hashBits);
      insH := Update(insH, window[str + 2], hashShift, hashBits);
      HeadAt(h0, wsize, w, ins, top', hashShift, hashBits, insH);
      matchHead := head[insH];
      prev[str % wsize] := matchHead;
      head[insH] := str;
      assert prev[..] == p0[str % wsize := matchHead];
      assert head[..] == h0[insH := str];
      ins := ins + {str};
    }

    // ---- searching ----

    /** How far the strings at cur and strstart agree, their first three bytes being equal. */
    method Compare(cur: nat) returns (len: nat)
      requires cur < strstart && strstart + MAX_MATCH <= window.Length
               && SameBytes(window[..], cur, strstart, MIN_MATCH)
      ensures MIN_MATCH <= len <= MAX_MATCH && SameBytes(window[..], cur, strstart, len)
      ensures len == Agreement(window[..], cur, strstart)
    {
      ghost var w := window[..];
      len := MIN_MATCH;
      while len < MAX_MATCH && window[strstart + len] == window[cur + len]
        invariant MIN_MATCH <= len <= MAX_MATCH && SameBytes(w, cur, strstart, len)
      {
        assert w[strstart + len] == w[strstart + len - (strstart - cur)];
        len := len + 1;
      }
      AgreementIs(w, cur, strstart, len, 0);
    }

    /** A string in the dictionary that may be followed: it has the key of the string at strstart. */
    ghost predicate Candidate(cur: int, ins0: set<int>)
      reads `strstart, `lookahead, window
    {
      && 0 < cur < strstart && strstart - cur <= MaxDist() && cur in ins0 && strstart + lookahead <= window.Length
      && cur + MIN_MATCH <= strstart + lookahead && strstart + MIN_MATCH <= strstart + lookahead
      && KeyAt(window[..], cur, hashShift, hashBits) == KeyAt(window[..], strstart, hashShift, hashBits)
    }

    /** One candidate: skipped unless it can improve on bestLen. Two equal bytes and equal keys make a
        third equal byte. */
    method Probe(cur: int, bestLen: nat, ghost ins0: set<int>) returns (len: nat)
      requires Shape() && Candidate(cur, ins0) && strstart + MIN_LOOKAHEAD <= window.Length && 2 <= bestLen <= MAX_MATCH
      ensures len == 0 || (len <= MAX_MATCH && SameBytes(window[..], cur, strstart, len))
      ensures if len == 0 then Agreement(window[..], cur, strstart) <= bestLen
              else len == Agreement(window[..], cur, strstart)
    {
      hide Key, Pow2, SameBytes, Common;
      ghost var w := window[..];
      Differing(w, cur, bestLen);
      Differing(w, cur, bestLen - 1);
      Differing(w, cur, 0);
      Differing(w, cur, 1);
      if || window[cur + bestLen] != window[strstart + bestLen]
          || window[cur + bestLen - 1] != window[strstart + bestLen - 1]
         || window[cur] != window[strstart] || window[cur + 1] != window[strstart + 1] {
        return 0;
      }
      KeyDecides(window[cur], window[cur + 1], window[cur + 2], window[strstart + 2], hashShift, hashBits);
      ThreeBytes(window[..], cur, strstart);
      len := Compare(cur);
    }

    lemma Differing(w: seq<Byte>, cur: int, k: nat)
      requires 0 <= cur < strstart && strstart + MIN_LOOKAHEAD <= |w| && k <= MAX_MATCH
      ensures w[cur + k] != w[strstart + k] ==> Agreement(w, cur, strstart) <= k
    {
      if k < MAX_MATCH && w[cur + k] != w[strstart + k] { AgreementEnds(w, cur, strstart, k, 0); }
    }

    /** What a link to a string above the limit leads to. */
    lemma Follow(x: int, q: int, ins0: set<int>)
      requires Shape() && x > 0 && x > strstart - MaxDist() && q <= strstart
      requires LinkOk(x, KeyAt0(strstart), q, wsize, window[..], ins0, strstart + 1, hashShift, hashBits)
      requires Inserted(ins0, strstart, strstart + lookahead, window.Length) && lookahead >= MIN_MATCH
      ensures Candidate(x, ins0)
    {
    }

    ghost function KeyAt0(q: int): nat
      reads window
    {
      if 0 <= q && q + MIN_MATCH <= window.Length then KeyAt(window[..], q, hashShift, hashBits) else 0
    }

    function ChainLength(prevLen: nat): nat { if prevLen >= goodMatch then maxChain / 4 else maxChain }

    function Nice(ahead: nat): int { if niceMatch > ahead then ahead else niceMatch }

    function Limit(p: int): int { if p > MaxDist() then p - MaxDist() else NIL }

    /** The candidates from this one on: strings in the dictionary with the key of the string at p, latest first. */
    ghost function Chain(w: seq<Byte>, ins0: set<int>, p: int, from: int, n: nat): (r: seq<int>)
      requires 0 <= p && p + MIN_MATCH <= |w| && n > 0
      ensures |r| > 0
    {
      [from] + Recent(w, ins0, KeyAt(w, p, hashShift, hashBits), hashShift, hashBits, from, Limit(p), n - 1)
    }

    /** What follows a candidate: nothing, or the string that it is linked to, and what follows that. */
    lemma ChainGoesOn(ins0: set<int>, cur: int, n: nat)
      requires Shape() && Candidate(cur, ins0) && n > 0 && strstart + MIN_LOOKAHEAD <= window.Length
      requires Links(prev[..], window[..], ins0, strstart + 1, strstart + lookahead, hashShift, hashBits)
      requires Inserted(ins0, strstart, strstart + lookahead, window.Length)
      ensures var x, w := prev[cur % wsize], window[..];
              && x >= 0
              && Chain(w, ins0, strstart, cur, n) ==
                 [cur] + (if x <= Limit(strstart) || n == 1 then [] else Chain(w, ins0, strstart, x, n - 1))
              && (x > Limit(strstart) ==> Candidate(x, ins0))
    {
      hide Links, Key, KeyAt, Pow2, Inserted, Parameters, LinkOk, Latest;
      LinkAt(prev[..], window[..], ins0, strstart + 1, strstart + lookahead, hashShift, hashBits, cur);
      var x := prev[cur % wsize];
      assert prev[..][cur % wsize] == x;
      if n > 1 {
        LinkIsRecent(prev[..], window[..], ins0, strstart + 1, strstart + lookahead, hashShift, hashBits, cur,
                     Limit(strstart), n - 1);
      }
      NotNegative(x, KeyAt0(strstart), cur, ins0);
      if x > Limit(strstart) { Follow(x, cur, ins0); }
    }

    lemma NotNegative(x: int, key: nat, below: int, ins0: set<int>)
      requires LinkOk(x, key, below, wsize, window[..], ins0, strstart + 1, hashShift, hashBits)
      ensures x >= 0
    {
    }

    /** The search so far: seen are the candidates done with, none of them nice. */
    ghost predicate Searching(seen: seq<int>, w: seq<Byte>, start0: int, bestLen: nat)
      reads `strstart, `lookahead, `prevLength, `matchStart
    {
      && IsLongest(seen, w, strstart, prevLength, start0, bestLen, matchStart)
      && NoneNice(seen, w, strstart, prevLength, Nice(lookahead))
      && (bestLen > prevLength ==> bestLen < Nice(lookahead))
    }

    /** What is known once the candidate cur has been compared, bestLen and matchStart being up to date. */
    lemma Compared(seen: seq<int>, cur: int, rest: seq<int>, w: seq<Byte>, start0: int, bestLen0: nat, bestLen: nat,
                   start: int)
      requires NoneNice(seen, w, strstart, prevLength, Nice(lookahead))
      requires IsLongest(seen, w, strstart, prevLength, start0, bestLen0, start)
      requires bestLen0 > prevLength ==> bestLen0 < Nice(lookahead)
      requires var a := Agreement(w, cur, strstart);
               bestLen == (if a > bestLen0 then a else bestLen0) && matchStart == (if a > bestLen0 then cur else start)
      ensures IsLongest(seen + [cur], w, strstart, prevLength, start0, bestLen, matchStart)
      ensures bestLen > bestLen0 && bestLen >= Nice(lookahead) ==>
                UpToNice(seen + ([cur] + rest), w, strstart, prevLength, Nice(lookahead)) == seen + [cur]
      ensures !(bestLen > bestLen0 && bestLen >= Nice(lookahead)) ==> Searching(seen + [cur], w, start0, bestLen)
      ensures !(bestLen > bestLen0 && bestLen >= Nice(lookahead)) && rest == [] ==>
                UpToNice(seen + ([cur] + rest), w, strstart, prevLength, Nice(lookahead)) == seen + [cur]
    {
      hide Agreement, IsLongest;
      LongestMore(seen, cur, w, strstart, prevLength, start0, bestLen0, start);
      BeforeNice(seen, [cur] + rest, w, strstart, prevLength, Nice(lookahead));
      LongestBound(seen, w, strstart, prevLength, start0, bestLen0, start);
      assert ([cur] + rest)[1..] == rest;
      assert [cur] + [] == [cur] && [cur][1..] == [];
    }

    /** What matchStart tells: a match of this length for the string at strstart, if it is longer than prevLength. */
    ghost predicate Matching(len: nat)
      reads `matchStart, `prevLength, `strstart, window
    {
      len > prevLength ==> matchStart < strstart && strstart - matchStart <= MaxDist()
                           && SameBytes(window[..], matchStart, strstart, len)
    }

    /** One turn of the search: the candidate cur, with rest to follow. */
    method Examine(cur: int, bestLen: nat, nice: int, ghost ins0: set<int>, ghost seen: seq<int>, ghost rest: seq<int>,
                   ghost start0: int) returns (len: nat, done: bool)
      requires Shape() && Candidate(cur, ins0) && strstart + MIN_LOOKAHEAD <= window.Length
      requires nice == Nice(lookahead) && 2 <= prevLength <= bestLen <= MAX_MATCH && Matching(bestLen)
      requires Searching(seen, window[..], start0, bestLen)
      modifies `matchStart
      ensures prevLength <= len <= MAX_MATCH && Matching(len)
      ensures IsLongest(seen + [cur], window[..], strstart, prevLength, start0, len, matchStart)
      ensures done || rest == [] ==>
                UpToNice(seen + ([cur] + rest), window[..], strstart, prevLength, nice) == seen + [cur]
      ensures !done ==> Searching(seen + [cur], window[..], start0, len)
    {
      hide KeyAt, Pow2, Parameters, SameBytes, UpToNice, IsLongest, Searching, Agreement;
      ghost var start := matchStart;
      SearchingIs(seen, window[..], start0, bestLen);
      len := Probe(cur, bestLen, ins0);
      done := false;
      if len > bestLen {
        matchStart := cur;
        done := len >= nice;
      } else {
        len := bestLen;
      }
      Compared(seen, cur, rest, window[..], start0, bestLen, len, start);
    }

    /** The candidates from first on, while they lie above the limit and there are no more than chainLen of them. */
    method FollowChain(first: int, chainLen: nat, nice: int, limit: int, ghost ins0: set<int>) returns (bestLen: nat)
      requires Shape() && Candidate(first, ins0) && strstart + MIN_LOOKAHEAD <= window.Length
      requires Links(prev[..], window[..], ins0, strstart + 1, strstart + lookahead, hashShift, hashBits)
      requires Inserted(ins0, strstart, strstart + lookahead, window.Length) && 2 <= prevLength <= MAX_MATCH
      requires chainLen > 0 && nice == Nice(lookahead) && limit == Limit(strstart)
      modifies `matchStart
      ensures prevLength <= bestLen <= MAX_MATCH && Matching(bestLen)
      ensures IsLongest(UpToNice(Chain(window[..], ins0, strstart, first, chainLen), window[..], strstart, prevLength,
                                 nice),
                        window[..], strstart, prevLength, old(matchStart), bestLen, matchStart)
    {
      hide Links, KeyAt, Pow2, SameBytes, Inserted, Parameters, Chain, UpToNice, IsLongest, Searching, Agreement,
           Candidate, Matching, Shape;
      ShapeIs();
      var cur, chainLength := first, chainLen;
      bestLen := prevLength;
      ghost var w, all, seen: seq<int> := window[..], Chain(window[..], ins0, strstart, first, chainLen), [];
      NothingSeen(w, matchStart);
      assert [] + all == all;
      while true
        invariant Candidate(cur, ins0) && chainLength >= 1 && prevLength <= bestLen <= MAX_MATCH && Matching(bestLen)
        invariant Searching(seen, w, old(matchStart), bestLen)
        invariant all == seen + Chain(w, ins0, strstart, cur, chainLength)
        decreases chainLength
      {
        ChainGoesOn(ins0, cur, chainLength);
        ghost var rest := Chain(w, ins0, strstart, cur, chainLength)[1..];
        var done;
        bestLen, done := Examine(cur, bestLen, nice, ins0, seen, rest, old(matchStart));
        seen := seen + [cur];
        if done { break; }
        cur := prev[cur % wsize];
        if cur <= limit { break; }
        chainLength := chainLength - 1;
        if chainLength == 0 { break; }
      }
    }

    /** longest_match: of the candidates, as far as the search goes, the longest match, and of those the nearest. */
    method LongestMatch(first: int, ghost ins0: set<int>) returns (result: nat, ghost best: nat)
      requires Shape() && Candidate(first, ins0) && strstart + MIN_LOOKAHEAD <= window.Length
      requires Links(prev[..], window[..], ins0, strstart + 1, strstart + lookahead, hashShift, hashBits)
      requires Inserted(ins0, strstart, strstart + lookahead, window.Length) && 2 <= prevLength <= MAX_MATCH
      modifies `matchStart
      ensures 2 <= result <= lookahead && result <= MAX_MATCH && Matching(result)
      ensures IsLongest(UpToNice(Chain(window[..], ins0, strstart, first, ChainLength(prevLength)), window[..],
                                 strstart, prevLength, Nice(lookahead)),
                        window[..], strstart, prevLength, old(matchStart), best, matchStart)
      ensures result == if best <= lookahead then best else lookahead
    {
      hide Links, KeyAt, Pow2, SameBytes, Inserted, Parameters, Chain, UpToNice, IsLongest, Searching, Agreement,
           Candidate, Matching;
      Ahead3(first, ins0);
      var chainLength := maxChain;
      var nice := niceMatch;
      var limit := if strstart > MaxDist() then strstart - MaxDist() else NIL;
      if prevLength >= goodMatch { chainLength := chainLength / 4; }
      if nice > lookahead { nice := lookahead; }
      var bestLen := FollowChain(first, chainLength, nice, limit, ins0);
      best := bestLen;
      result := if bestLen <= lookahead then bestLen else lookahead;
      FewerMatching(bestLen, result);
    }

    lemma ShapeIs()
      requires Shape()
      ensures wsize >= 512 && prev.Length == wsize && window.Length == 2 * wsize && maxChain >= 4
      ensures prev != head && prev != dBuf && prev != lBuf && head != dBuf && head != lBuf
    {
    }

    lemma FewerMatching(len: nat, len': nat)
      requires Matching(len) && len' <= len
      ensures Matching(len')
    {
    }

    lemma Ahead3(first: int, ins0: set<int>)
      requires Candidate(first, ins0)
      ensures strstart + MIN_MATCH <= window.Length && lookahead >= MIN_MATCH
    {
    }

    lemma NothingSeen(w: seq<Byte>, start0: int)
      requires matchStart == start0
      ensures Searching([], w, start0, prevLength) && Matching(prevLength)
    {
    }

    lemma SearchingIs(seen: seq<int>, w: seq<Byte>, start0: int, bestLen: nat)
      requires Searching(seen, w, start0, bestLen)
      ensures IsLongest(seen, w, strstart, prevLength, start0, bestLen, matchStart)
      ensures NoneNice(seen, w, strstart, prevLength, Nice(lookahead))
      ensures bestLen > prevLength ==> bestLen < Nice(lookahead)
    {
      hide IsLongest, NoneNice;
    }

    // ---- the symbol buffers ----

    /** _tr_tally_lit. */
    method TallyLit(c: Byte) returns (bflush: bool)
      requires Shape() && Tallied(2)
      modifies `lastLit, `symbols, dBuf, lBuf
      ensures symbols == old(symbols) + [Literal(c)] && Tallied(if bflush then 1 else 2) && lastLit == old(lastLit) + 1
      ensures bflush == (lastLit == dBuf.Length - 1)
    {
      bflush := Store(0, c, Literal(c));
    }

    /** _tr_tally_dist: length is the length less 3. */
    method TallyDist(distance: int, length: nat) returns (bflush: bool)
      requires Shape() && Tallied(2) && distance > 0
      modifies `lastLit, `symbols, dBuf, lBuf
      ensures symbols == old(symbols) + [Copy(distance, length + 3)] && Tallied(if bflush then 1 else 2)
              && lastLit == old(lastLit) + 1
      ensures bflush == (lastLit == dBuf.Length - 1)
    {
      bflush := Store(distance, length, Copy(distance, length + 3));
    }

    method Store(d: int, l: nat, ghost symbol: Symbol) returns (bflush: bool)
      requires Shape() && Tallied(2)
      requires symbol == if d > 0 then Copy(d, l + 3) else Literal(if l < 256 then l else 0)
      modifies `lastLit, `symbols, dBuf, lBuf
      ensures symbols == old(symbols) + [symbol] && Tallied(if bflush then 1 else 2) && lastLit == old(lastLit) + 1
      ensures bflush == (lastLit == dBuf.Length - 1)
    {
      hide Stored, Pow2;
      ghost var d0, l0 := dBuf[..lastLit], lBuf[..lastLit];
      StoredMore(d0, l0, d, l);
      dBuf[lastLit] := d;
      lBuf[lastLit] := l;
      lastLit := lastLit + 1;
      symbols := symbols + [symbol];
      assert dBuf[..lastLit] == d0 + [d] && lBuf[..lastLit] == l0 + [l];
      assert symbols[sent..] == old(symbols[sent..]) + [symbol];
      bflush := lastLit == dBuf.Length - 1;
    }

    /** FLUSH_BLOCK_ONLY: the block is handed on, and the buffers are empty again. */
    method FlushBlock()
      requires Shape() && sent + lastLit == |symbols|
      modifies `lastLit, `sent, `blockStart
      ensures Tallied(2) && lastLit == 0 && sent == |symbols|
    {
      lastLit := 0;
      sent := |symbols|;
      blockStart := strstart;
      assert dBuf[..0] == [] && lBuf[..0] == [];
    }

    // ---- one step ----

    /** After the search at strstart: the earlier match, and what has been found here. */
    ghost predicate Searched()
      reads `matchLength, `matchStart, `prevLength, `prevMatch, `matchAvailable, `strstart, `lookahead, `data, `slid,
            `insert, `insH, `ins, window
    {
      && 2 <= matchLength <= MAX_MATCH && 2 <= prevLength <= MAX_MATCH && (matchAvailable ==> strstart >= 1)
      && (prevLength >= MIN_MATCH ==>
            matchAvailable && prevLength <= lookahead + 1 && MatchAt(strstart - 1, prevMatch, prevLength))
      && (matchLength >= MIN_MATCH && matchLength > prevLength ==>
            matchLength <= lookahead && MatchAt(strstart, matchStart, matchLength))
      && insert <= strstart && insert <= 2 && EarlierThan(ins, strstart + 1 - insert)
      && (insert == 0 || lookahead + insert < MIN_MATCH) && (lookahead >= MIN_MATCH ==> RolledAt(strstart + 1))
    }

    /** The dictionary once the string at strstart is in it, or passed by for want of three bytes, and the latest string
        before with the same key. */
    ghost predicate Entered(hashHead: int, ins0: set<int>)
      reads `ins, `strstart, `lookahead, `insert, `insH, window, prev, head
    {
      && Chained(strstart + 1, strstart + lookahead) && insert <= strstart && insert <= 2
      && strstart + lookahead <= window.Length
      && ins == ins0 + Strings(strstart, strstart + 1, strstart + lookahead) && EarlierThan(ins, strstart + 1 - insert)
      && (insert == 0 || lookahead + insert < MIN_MATCH)
      && (if lookahead < MIN_MATCH then hashHead == NIL
          else
            && RolledAt(strstart + 1) && Inserted(ins0, strstart, strstart + lookahead, window.Length)
            && Links(prev[..], window[..], ins0, strstart + 1, strstart + lookahead, hashShift, hashBits)
            && LinkOk(hashHead, KeyAt(window[..], strstart, hashShift, hashBits), strstart, wsize, window[..], ins0,
                      strstart + 1, hashShift, hashBits))
    }

    method EnterString() returns (hashHead: int)
      requires Shape() && Located(strstart + lookahead) && Chained(strstart, strstart + lookahead) && Ready()
      modifies `insH, `ins, prev, head
      ensures Entered(hashHead, old(ins))
    {
      hide Links, Heads, LinkOk, Key, KeyAt, Pow2, Rolled, Located, Chained, Inserted, EarlierThan;
      hashHead := NIL;
      Bounded();
      WasInserted(strstart, strstart + lookahead);
      NoStrings(strstart, strstart + lookahead);
      NextString(ins, ins, strstart, strstart, strstart + lookahead, insert);
      if lookahead >= MIN_MATCH {
        hashHead := InsertString(strstart, strstart, strstart + 1, strstart + lookahead);
      } else {
        Aged(strstart, strstart + lookahead, strstart + 1);
      }
    }

    /** What the search leaves of a match of this length and distance: short matches far away are dropped. */
    function Kept(len: nat, dist: int): nat {
      if len <= 5 && (filtered || (len == MIN_MATCH && dist > TOO_FAR)) then MIN_MATCH - 1 else len
    }

    /** The search at p that starts with the candidate first: the best match, as far as there is data. */
    ghost predicate BestOf(first: int, w: seq<Byte>, ins0: set<int>, p: nat, ahead: nat, prevLen: nat, start0: int,
                           len: nat, start: int)
      requires p + MIN_MATCH <= |w| && maxChain >= 4
    {
      exists best: nat ::
        IsLongest(UpToNice(Chain(w, ins0, p, first, ChainLength(prevLen)), w, p, prevLen, Nice(ahead)), w, p, prevLen,
                  start0, best, start)
        && len == Kept(if best <= ahead then best else ahead, p - start)
    }

    /** What is found for the string at p, the match before it having length prevLen: nothing if that is good enough, or
        no string in the dictionary that is near enough has the same key. */
    ghost predicate Finds(w: seq<Byte>, ins0: set<int>, p: nat, ahead: nat, prevLen: nat, start0: int, len: nat,
                          start: int)
      requires maxChain >= 4
    {
      if ahead < MIN_MATCH || p + MIN_MATCH > |w| then len == MIN_MATCH - 1 && start == start0
      else
        var first := Latest(w, ins0, KeyAt(w, p, hashShift, hashBits), hashShift, hashBits, p);
        if first == NIL || prevLen >= maxLazy || p - first > MaxDist() then len == MIN_MATCH - 1 && start == start0
        else BestOf(first, w, ins0, p, ahead, prevLen, start0, len, start)
    }

    /** Whether what matchLength and matchStart tell improves on the earlier match: if so, it is a match. */
    ghost predicate Improved()
      reads `matchLength, `matchStart, `prevLength, `strstart, `lookahead, `data, `slid
    {
      && 2 <= matchLength <= MAX_MATCH
      && (matchLength >= MIN_MATCH && matchLength > prevLength ==>
            matchLength <= lookahead && MatchAt(strstart, matchStart, matchLength))
    }

    /** The head of the chain, if it is near enough, is the latest string. */
    lemma HeadIsLatest(x: int, ins0: set<int>)
      requires Shape() && strstart + MIN_MATCH <= window.Length
      requires LinkOk(x, KeyAt(window[..], strstart, hashShift, hashBits), strstart, wsize, window[..], ins0,
                      strstart + 1, hashShift, hashBits)
      ensures var y := Latest(window[..], ins0, KeyAt(window[..], strstart, hashShift, hashBits), hashShift, hashBits,
                              strstart);
              (x != NIL && strstart - x <= MaxDist() <==> y != NIL && strstart - y <= MaxDist())
              && (x != NIL && strstart - x <= MaxDist() ==> x == y)
    {
      hide Latest, KeyAt, Pow2, Parameters;
    }

    /** Searching the chain, unless the earlier match is good enough; short matches far away are dropped. */
    method FindMatch(hashHead: int, ghost ins0: set<int>)
      requires Shape() && Located(strstart + lookahead) && Entered(hashHead, ins0) && 2 <= prevLength <= MAX_MATCH
      requires strstart + MIN_LOOKAHEAD <= window.Length
      modifies `matchLength, `matchStart
      ensures Improved()
      ensures Finds(window[..], ins0, strstart, lookahead, prevLength, old(matchStart), matchLength, matchStart)
    {
      hide Links, LinkOk, Key, KeyAt, Pow2, Located, IsMatch, Chained, Inserted, SameBytes, Candidate, Parameters,
           Latest, IsLongest, UpToNice, Chain, EarlierThan;
      matchLength := MIN_MATCH - 1;
      if lookahead >= MIN_MATCH { HeadIsLatest(hashHead, ins0); }
      if hashHead != NIL && prevLength < maxLazy && strstart - hashHead <= MaxDist() {
        First(hashHead, ins0);
        ghost var best: nat;
        matchLength, best := LongestMatch(hashHead, ins0);
        if matchLength > prevLength { FoundHere(); }
        if matchLength <= 5 && (filtered || (matchLength == MIN_MATCH && strstart - matchStart > TOO_FAR)) {
          matchLength := MIN_MATCH - 1;
        }
      }
    }

    /** Inserting the string at strstart, and looking for a longer match than the one before it. */
    method Search()
      requires Shape() && Located(strstart + lookahead) && Chained(strstart, strstart + lookahead) && Ready()
               && Pending()
      requires strstart + MIN_LOOKAHEAD <= window.Length
      modifies `insH, `ins, prev, head, `prevLength, `prevMatch, `matchLength, `matchStart
      ensures Chained(strstart + 1, strstart + lookahead) && Searched()
      ensures Finds(window[..], old(ins), strstart, lookahead, old(matchLength), old(matchStart), matchLength,
                    matchStart)
      ensures ins == old(ins) + Strings(strstart, strstart + 1, strstart + lookahead)
      ensures prevLength == old(matchLength) && prevMatch == old(matchStart)
    {
      hide Links, Heads, LinkOk, Pow2, Located, IsMatch, Chained, Inserted, RolledAt, MatchAt, Finds, Strings;
      var hashHead := EnterString();
      prevLength, prevMatch := matchLength, matchStart;
      FindMatch(hashHead, old(ins));
    }

    /** The strings from one position to another that lie before the end. */
    ghost function Strings(from: int, to: int, end: int): set<int> { set q | from <= q < to && Complete(q, end) }

    ghost predicate Complete(q: int, end: int) { q + MIN_MATCH <= end }

    /** On to the next position: its string joins the others, or is not complete. */
    lemma NextString(strings: set<int>, ins0: set<int>, from: int, p: int, end: int, left: nat)
      requires from <= p && strings == ins0 + Strings(from, p, end) && EarlierThan(strings, p - left)
      ensures p + MIN_MATCH <= end ==>
                strings + {p} == ins0 + Strings(from, p + 1, end) && EarlierThan(strings + {p}, p + 1)
      ensures p + MIN_MATCH > end ==>
                strings == ins0 + Strings(from, p + 1, end) && EarlierThan(strings, p + 1 - left)
    {
    }

    lemma MoreStrings(p: int, q: int, r: int, end: int)
      requires p <= q <= r
      ensures Strings(p, q, end) + Strings(q, r, end) == Strings(p, r, end)
    {
    }

    lemma NoStrings(p: int, end: int)
      ensures Strings(p, p, end) == {}
    {
    }

    lemma Bounded()
      requires Located(strstart + lookahead)
      ensures strstart + lookahead <= window.Length
    {
    }

    lemma WasInserted(top: int, end: int)
      requires Chained(top, end)
      ensures Inserted(ins, top, end, window.Length)
    {
    }

    lemma Aged(top: int, end: int, top': int)
      requires Shape() && Chained(top, end) && top <= top'
      ensures Chained(top', end)
    {
      hide Links, Heads;
      Older(head[..], prev[..], window[..], ins, top, end, hashShift, hashBits, top');
    }

    /** The head of the chain may be followed. */
    lemma First(x: int, ins0: set<int>)
      requires Shape() && x != NIL && strstart - x <= MaxDist() && lookahead >= MIN_MATCH
               && strstart + lookahead <= window.Length
      requires Links(prev[..], window[..], ins0, strstart + 1, strstart + lookahead, hashShift, hashBits)
      requires LinkOk(x, KeyAt(window[..], strstart, hashShift, hashBits), strstart, wsize, window[..], ins0,
                      strstart + 1,
                      hashShift, hashBits)
      requires Inserted(ins0, strstart, strstart + lookahead, window.Length)
      ensures Candidate(x, ins0)
    {
    }

    lemma FoundHere()
      requires Located(strstart + lookahead) && matchStart < strstart && strstart - matchStart <= MaxDist()
      requires SameBytes(window[..], matchStart, strstart, matchLength) && matchLength <= lookahead
      ensures MatchAt(strstart, matchStart, matchLength)
    {
      hide IsMatch;
      SameIsMatch(window[..], data, slid, strstart + lookahead, matchStart, strstart, matchLength, matchLength);
    }

    /** Inserting the strings within a match, as far as they lie before the end. */
    method InsertRest(maxInsert: nat, ghost end: int)
      requires Shape() && end == maxInsert + MIN_MATCH <= window.Length && Chained(strstart + 1, end) && prevLength >= 1
      requires strstart + 1 <= maxInsert ==> RolledAt(strstart + 1)
      requires EarlierThan(ins, strstart + 1 - insert) && (strstart + 1 <= maxInsert ==> insert == 0)
      modifies `strstart, `prevLength, `insH, `ins, prev, head
      ensures strstart == old(strstart) + old(prevLength) && Chained(strstart + 1, end)
      ensures strstart + 1 <= maxInsert ==> RolledAt(strstart + 1)
      ensures EarlierThan(ins, strstart + 1 - insert) && ins == old(ins) + Strings(old(strstart) + 1, strstart + 1, end)
    {
      hide Links, Heads, LinkOk, Pow2, Chained, RolledAt, Key, KeyAt, EarlierThan, Strings;
      NoStrings(strstart + 1, end);
      while true
        invariant prevLength >= 1 && strstart + prevLength == old(strstart) + old(prevLength)
                  && Chained(strstart + 1, end)
        invariant strstart + 1 <= maxInsert ==> RolledAt(strstart + 1)
        invariant strstart >= old(strstart) && EarlierThan(ins, strstart + 1 - insert)
        invariant ins == old(ins) + Strings(old(strstart) + 1, strstart + 1, end)
        decreases prevLength
      {
        NextString(ins, old(ins), old(strstart) + 1, strstart + 1, end, insert);
        strstart := strstart + 1;
        if strstart <= maxInsert {
          var hashHead := InsertString(strstart, strstart, strstart + 1, end);
        } else {
          Aged(strstart, end, strstart + 1);
        }
        prevLength := prevLength - 1;
        if prevLength == 0 { break; }
      }
    }

    /** The match found before strstart becomes a symbol... */
    method TallyMatch() returns (bflush: bool)
      requires Shape() && Located(strstart + lookahead) && Searched() && prevLength >= MIN_MATCH
      requires Told(slid + strstart - Held()) && Tallied(2)
      modifies `lastLit, `symbols, dBuf, lBuf
      ensures Told(slid + strstart - 1 + prevLength) && Tallied(if bflush then 1 else 2)
      ensures symbols == old(symbols) + [Copy(strstart - 1 - prevMatch, prevLength)]
    {
      hide Tallied, Sound, Expand, IsMatch, RolledAt, Pow2;
      MatchWithin(data, slid + strstart - 1, strstart - 1 - prevMatch, prevLength);
      AddCopy(symbols, MaxDist(), data, slid + strstart - 1, strstart - 1 - prevMatch, prevLength);
      bflush := TallyDist(strstart - 1 - prevMatch, prevLength - MIN_MATCH);
    }

    /** ... and is passed over. */
    method PassMatch()
      requires Shape() && Located(strstart + lookahead) && Chained(strstart + 1, strstart + lookahead) && Searched()
      requires prevLength >= MIN_MATCH && Told(slid + strstart - 1 + prevLength)
      modifies `strstart, `lookahead, `prevLength, `matchAvailable, `matchLength, `insH, `ins, prev, head
      ensures Located(strstart + lookahead) && Chained(strstart, strstart + lookahead) && Ready() && Pending()
      ensures Told(slid + strstart - Held()) && lookahead == old(lookahead) - (old(prevLength) - 1) && !matchAvailable
      ensures strstart == old(strstart) - 1 + old(prevLength) && matchLength == MIN_MATCH - 1
      ensures ins == old(ins) + Strings(old(strstart) + 1, strstart, old(strstart + lookahead))
    {
      hide Links, Heads, Pow2, Chained, RolledAt, Located, MatchAt, Told, Parameters, EarlierThan, Strings;
      Bounded();
      var maxInsert := strstart + lookahead - MIN_MATCH;
      lookahead := lookahead - (prevLength - 1);
      prevLength := prevLength - 2;
      InsertRest(maxInsert, strstart + lookahead + prevLength + 1);
      matchAvailable := false;
      matchLength := MIN_MATCH - 1;
      strstart := strstart + 1;
    }

    /** The byte before strstart is output as it is. */
    method EmitLiteral() returns (bflush: bool)
      requires Shape() && Located(strstart + lookahead) && Told(slid + strstart - 1) && Tallied(2) && strstart >= 1
      modifies `lastLit, `symbols, dBuf, lBuf
      ensures Told(slid + strstart) && Tallied(if bflush then 1 else 2)
      ensures strstart <= window.Length && symbols == old(symbols) + [Literal(window[strstart - 1])]
    {
      hide Tallied, Sound, Expand;
      ByteAt(strstart - 1, strstart + lookahead);
      AddLiteral(symbols, MaxDist(), data, slid + strstart - 1);
      bflush := TallyLit(window[strstart - 1]);
    }

    /** The same, and the end of the block if the buffers are full. */
    method EmitPrevious()
      requires Shape() && Located(strstart + lookahead) && Told(slid + strstart - 1) && Tallied(2) && strstart >= 1
      modifies `lastLit, `symbols, dBuf, lBuf, `sent, `blockStart
      ensures Told(slid + strstart) && Tallied(2)
      ensures strstart <= window.Length && symbols == old(symbols) + [Literal(window[strstart - 1])]
    {
      hide Tallied, Told, Located, Pow2, Parameters;
      var bflush := EmitLiteral();
      if bflush {
        Counted(1);
        FlushBlock();
      }
    }

    lemma ByteAt(k: int, end: int)
      requires Located(end) && 0 <= k < end
      ensures slid + k < |data| && window[k] == data[slid + k]
    {
      assert window[..end][k] == data[slid..][k];
    }

    /** On to the next string, with what was found here as the match to compare with. */
    method Advance()
      requires Shape() && Located(strstart + lookahead) && Chained(strstart + 1, strstart + lookahead) && Searched()
               && lookahead > 0
      requires prevLength < MIN_MATCH || matchLength > prevLength
      modifies `strstart, `lookahead, `matchAvailable
      ensures Located(strstart + lookahead) && Chained(strstart, strstart + lookahead) && Ready() && Pending()
      ensures matchAvailable && strstart == old(strstart) + 1 && lookahead == old(lookahead) - 1
    {
      hide Links, Heads, LinkOk, Pow2, Chained, RolledAt, Located, MatchAt;
      matchAvailable := true;
      strstart := strstart + 1;
      lookahead := lookahead - 1;
    }

    /** The match found before becomes a symbol, and is passed over. */
    method UseMatch(stalled: bool) returns (stop: bool)
      requires Shape() && Located(strstart + lookahead) && Chained(strstart + 1, strstart + lookahead) && Searched()
      requires prevLength >= MIN_MATCH && Told(slid + strstart - Held()) && Tallied(2)
      modifies `strstart, `lookahead, `prevLength, `matchAvailable, `matchLength, `insH, `ins, prev, head
      modifies `lastLit, `symbols, dBuf, lBuf, `sent, `blockStart
      ensures Located(strstart + lookahead) && Chained(strstart, strstart + lookahead) && Ready() && Pending()
      ensures Told(slid + strstart - Held()) && Tallied(2) && lookahead < old(lookahead) && (stop ==> stalled)
      ensures old(prevMatch < strstart)
              && symbols == old(symbols) + [Copy(old(strstart - 1 - prevMatch), old(prevLength))]
      ensures strstart == old(strstart) - 1 + old(prevLength) && !matchAvailable && matchLength == MIN_MATCH - 1
      ensures lookahead == old(lookahead) - (old(prevLength) - 1)
      ensures ins == old(ins) + Strings(old(strstart) + 1, strstart, old(strstart + lookahead))
    {
      hide Links, Heads, LinkOk, Pow2, Chained, RolledAt, Located, Tallied, Ready, Pending, Told, Searched, Strings;
      SearchFacts();
      var bflush := TallyMatch();
      PassMatch();
      stop := false;
      if bflush {
        Counted(1);
        FlushBlock();
        stop := stalled;
      }
    }

    /** The byte that waits is output, and what is found here waits. */
    method PutOff(stalled: bool) returns (stop: bool)
      requires Shape() && Located(strstart + lookahead) && Chained(strstart + 1, strstart + lookahead) && Searched()
               && lookahead > 0
      requires (prevLength < MIN_MATCH || matchLength > prevLength) && Told(slid + strstart - Held()) && Tallied(2)
      modifies `strstart, `lookahead, `matchAvailable, `lastLit, `symbols, dBuf, lBuf, `sent, `blockStart
      ensures Located(strstart + lookahead) && Chained(strstart, strstart + lookahead) && Ready() && Pending()
      ensures Told(slid + strstart - Held()) && Tallied(2) && lookahead == old(lookahead) - 1 && (stop ==> stalled)
      ensures matchAvailable && strstart == old(strstart) + 1 && old(strstart) <= window.Length
      ensures old(matchAvailable ==> strstart >= 1)
      ensures symbols == old(symbols) + if old(matchAvailable) then [Literal(window[old(strstart) - 1])] else []
    {
      hide Links, Heads, LinkOk, Pow2, Chained, RolledAt, Located, Tallied, Ready, Pending, Told, Searched;
      Bounded();
      SearchFacts();
      stop := false;
      if matchAvailable {
        EmitPrevious();
        stop := stalled;
      }
      Advance();
    }

    // ---- what is done, and when ----

    ghost function Now(): Situation
      reads `slid, `strstart, `lookahead, `ins, `insert, `matchAvailable, `matchLength, `matchStart
    {
      Situation(slid, strstart, lookahead, ins, insert, matchAvailable, matchLength, matchStart)
    }

    ghost function After(s: Situation, e: Event): Situation {
      match e
      case Turn(_, len, start) => AfterTurn(s, len, start)
      case Fill(ahead) => Filled(Lowered(s), ahead)
      case LastByte(_) => s.(waiting := false, left := if s.p < MIN_MATCH - 1 then s.p else MIN_MATCH - 1)
      case Forget => Situation(s.slid + s.p, 0, 0, {}, 0, s.waiting, s.len, s.start)
    }

    /** A turn uses the match found before if it is at least 3 long and what is found now is not longer, else it goes on
        by one byte, with what is found now to compare with the next. */
    ghost function AfterTurn(s: Situation, len: nat, start: int): Situation {
      var p := if UsesMatch(s, len) then s.p - 1 + s.len else s.p + 1;
      Situation(s.slid, p, s.ahead - (p - s.p), s.ins + Strings(s.p, p, s.p + s.ahead), s.left, !UsesMatch(s, len),
                if UsesMatch(s, len) then MIN_MATCH - 1 else len, start)
    }

    /** The window slides if there is too little room... */
    ghost function Lowered(s: Situation): Situation {
      if s.p < wsize + MaxDist() then s
      else s.(slid := s.slid + wsize, p := s.p - wsize, ins := SetDown(s.ins, wsize, s.p), start := s.start - wsize)
    }

    /** ... and once it is filled, the strings that were left over are entered as far as they are complete. */
    ghost function Filled(s: Situation, ahead: int): Situation {
      var left := LeftOver(s.left, ahead);
      s.(ahead := ahead, ins := s.ins + Strings(s.p - s.left, s.p - left, s.p + ahead), left := left)
    }

    ghost predicate UsesMatch(s: Situation, len: nat) { s.len >= MIN_MATCH && len <= s.len }

    /** How many strings before a position are still incomplete when there are that many bytes from it on. */
    function LeftOver(left: int, ahead: int): int {
      if left + ahead < MIN_MATCH then left else if ahead < MIN_MATCH - 1 then MIN_MATCH - 1 - ahead else 0
    }

    /** The symbol put out, if any: a copy of the match used, or the byte that waits. */
    ghost function Out(s: Situation, e: Event): seq<Symbol> {
      match e
      case Turn(w, len, _) =>
        if UsesMatch(s, len) && s.start < s.p then [Copy(s.p - 1 - s.start, s.len)]
        else if s.waiting && 0 < s.p <= |w| then [Literal(w[s.p - 1])] else []
      case LastByte(c) => if s.waiting then [Literal(c)] else []
      case _ => []
    }

    /** When it is done, d being the data: a turn looks at the data and finds the best match, the window is filled when
        little is ahead, and the rest when nothing is. */
    ghost predicate Allowed(s: Situation, e: Event, d: seq<Byte>) {
      match e
      case Turn(w, len, start) =>
        && maxChain >= 4 && s.slid >= 0 && s.p >= 0 && s.ahead > 0 && s.p + MIN_LOOKAHEAD <= |w|
        && Holds(w, s.slid, s.p + s.ahead, d) && Inserted(s.ins, s.p, s.p + s.ahead, |w|)
        && Finds(w, s.ins, s.p, s.ahead, s.len, s.start, len, start)
      case Fill(ahead) => s.ahead <= ahead && s.ahead < MIN_LOOKAHEAD && s.slid + s.p + ahead <= |d|
      case LastByte(c) => s.ahead == 0 && (s.waiting ==> 0 < s.slid + s.p <= |d| && c == d[s.slid + s.p - 1])
      case Forget => s.ahead == 0 && !s.waiting
    }

    /** The window holds the data from slid on, up to position end. */
    ghost predicate Holds(w: seq<Byte>, slid: int, end: int, d: seq<Byte>) {
      0 <= slid <= slid + end <= |d| && end <= |w| && w[..end] == d[slid..slid + end]
    }

    /** What the window holds beyond the data makes no difference: whatever it is, the same symbol is put out, and the
        same match waits. */
    lemma UnseenMakesNoDifference(s: Situation, w: seq<Byte>, len: nat, start: int, w': seq<Byte>, len': nat,
                                  start': int, d: seq<Byte>)
      requires Allowed(s, Turn(w, len, start), d) && Allowed(s, Turn(w', len', start'), d) && |w| == |w'|
      ensures Out(s, Turn(w', len', start')) == Out(s, Turn(w, len, start))
      ensures var t, t' := After(s, Turn(w, len, start)), After(s, Turn(w', len', start'));
              t'.(start := 0) == t.(start := 0) && (t.len >= MIN_MATCH ==> t'.start == t.start)
    {
      hide IsLongest, UpToNice, Latest, Recent, Key, Agreement;
      assert SameUpTo(w, w', s.p, s.ahead);
      if s.waiting && s.p > 0 { assert w'[..s.p + s.ahead][s.p - 1] == w[..s.p + s.ahead][s.p - 1]; }
      SameFound(s, w, len, start, w', len', start');
    }

    lemma SameFound(s: Situation, w: seq<Byte>, len: nat, start: int, w': seq<Byte>, len': nat, start': int)
      requires maxChain >= 4 && s.p >= 0 && s.ahead > 0 && SameUpTo(w, w', s.p, s.ahead)
      requires Inserted(s.ins, s.p, s.p + s.ahead, |w|)
      requires Finds(w, s.ins, s.p, s.ahead, s.len, s.start, len, start)
      requires Finds(w', s.ins, s.p, s.ahead, s.len, s.start, len', start')
      ensures (len' == len && start' == start) || (UsesMatch(s, len) && UsesMatch(s, len'))
    {
      hide IsLongest, UpToNice, Latest, Recent, Key, Agreement;
      if s.ahead >= MIN_MATCH {
        SameEntries(s, w, w');
        var key := KeyAt(w, s.p, hashShift, hashBits);
        SameLatest(w, s.ins, w', s.ins, key, hashShift, hashBits, s.p);
        var first := Latest(w, s.ins, key, hashShift, hashBits, s.p);
        if first != NIL && s.len < maxLazy && s.p - first <= MaxDist() {
          var n, nice := ChainLength(s.len), Nice(s.ahead);
          SameRecent(w, w', s.ins, key, hashShift, hashBits, first, Limit(s.p), n - 1);
          var cands := Chain(w, s.ins, s.p, first, n);
          assert Chain(w', s.ins, s.p, first, n) == cands;
          var best: nat :| IsLongest(UpToNice(cands, w, s.p, s.len, nice), w, s.p, s.len, s.start, best, start)
                           && len == Kept(if best <= s.ahead then best else s.ahead, s.p - start);
          var best': nat :| IsLongest(UpToNice(cands, w', s.p, s.len, nice), w', s.p, s.len, s.start, best', start')
                            && len' == Kept(if best' <= s.ahead then best' else s.ahead, s.p - start');
          UnseenBytes(cands, w, w', s.p, s.ahead, s.len, nice, s.start, best, start, best', start');
        }
      }
    }

    lemma SameEntries(s: Situation, w: seq<Byte>, w': seq<Byte>)
      requires s.ahead >= MIN_MATCH && SameUpTo(w, w', s.p, s.ahead) && Inserted(s.ins, s.p, s.p + s.ahead, |w|)
      ensures KeyAt(w', s.p, hashShift, hashBits) == KeyAt(w, s.p, hashShift, hashBits)
      ensures forall q | 0 < q < s.p :: var key := KeyAt(w, s.p, hashShift, hashBits);
                Entry(w, s.ins, key, hashShift, hashBits, q) <==> Entry(w', s.ins, key, hashShift, hashBits, q)
    {
      hide Key;
      var end := s.p + s.ahead;
      forall q | 0 <= q <= end - MIN_MATCH
        ensures KeyAt(w', q, hashShift, hashBits) == KeyAt(w, q, hashShift, hashBits) {
        assert w'[..end][q] == w[..end][q] && w'[..end][q + 1] == w[..end][q + 1]
            && w'[..end][q + 2] == w[..end][q + 2];
      }
    }

    ghost function Run(es: seq<Event>): Situation {
      if es == [] then Situation(0, 0, 0, {}, 0, false, MIN_MATCH - 1, 0)
      else After(Run(es[..|es| - 1]), es[|es| - 1])
    }

    ghost function Output(es: seq<Event>): seq<Symbol> {
      if es == [] then [] else Output(es[..|es| - 1]) + Out(Run(es[..|es| - 1]), es[|es| - 1])
    }

    ghost predicate Justified(es: seq<Event>, d: seq<Byte>) {
      forall k | 0 <= k < |es| :: Allowed(Run(es[..k]), es[k], d)
    }

    /** All that has been done was allowed and has led to where deflate stands, and to these symbols. */
    ghost predicate Narrated()
      reads `events, `symbols, `data
      reads `slid, `strstart, `lookahead, `ins, `insert, `matchAvailable, `matchLength, `matchStart
    {
      Run(events) == Now() && Output(events) == symbols && Justified(events, data)
    }

    lemma NarratedIs()
      requires Narrated()
      ensures Run(events) == Now() && Output(events) == symbols && Justified(events, data)
    {
    }

    /** More data leaves it allowed. */
    lemma StillAllowed(s: Situation, e: Event, d: seq<Byte>, d': seq<Byte>)
      requires Allowed(s, e, d) && d <= d'
      ensures Allowed(s, e, d')
    {
      hide Finds;
      if e.Turn? { assert d'[s.slid..s.slid + (s.p + s.ahead)] == d[s.slid..s.slid + (s.p + s.ahead)]; }
    }

    /** Between these events and those, the window has only been filled. */
    ghost predicate OnlyFilled(es: seq<Event>, es': seq<Event>) {
      es <= es' && forall k | |es| <= k < |es'| :: es'[k].Fill?
    }

    ghost method Record(before: Situation, symbols0: seq<Symbol>, d: seq<Byte>, e: Event)
      requires Run(events) == before && Output(events) == symbols0 && Justified(events, d) && d <= data
      requires Allowed(before, e, data) && Now() == After(before, e) && symbols == symbols0 + Out(before, e)
      modifies `events
      ensures Narrated() && events == old(events) + [e]
    {
      hide Allowed, After, Out, Now;
      var es := events + [e];
      assert es[..|events|] == events;
      forall k | 0 <= k < |es| ensures Allowed(Run(es[..k]), es[k], data) {
        if k < |events| {
          assert es[..k] == events[..k];
          StillAllowed(Run(events[..k]), events[k], d, data);
        }
      }
      events := es;
    }

    /** From the event at this index on, turns are taken with enough ahead, or, if it is to be flushed, with all the
        input that there is ahead, total bytes of it in all. */
    ghost predicate Patient(es: seq<Event>, from: nat, flush: Flush, total: int) {
      forall k | from <= k < |es| && es[k].Turn? :: EnoughAhead(Run(es[..k]), flush, total)
    }

    ghost predicate EnoughAhead(s: Situation, flush: Flush, total: int) {
      s.ahead >= MIN_LOOKAHEAD || (flush != NO_FLUSH && s.slid + s.p + s.ahead == total)
    }

    /** One more event. */
    lemma PatientMore(es: seq<Event>, e: Event, from: nat, flush: Flush, total: int)
      requires Patient(es, from, flush, total) && (e.Turn? ==> EnoughAhead(Run(es), flush, total))
      ensures Patient(es + [e], from, flush, total)
    {
      hide Run, EnoughAhead;
      var es' := es + [e];
      forall k | from <= k < |es'| && es'[k].Turn? ensures EnoughAhead(Run(es'[..k]), flush, total) {
        assert es'[..k] == if k < |es| then es[..k] else es;
      }
    }

    lemma PatientFilling(es: seq<Event>, es': seq<Event>, from: nat, flush: Flush, total: int)
      requires Patient(es, from, flush, total) && OnlyFilled(es, es')
      ensures Patient(es', from, flush, total)
    {
      hide Run, EnoughAhead;
      forall k | from <= k < |es'| && es'[k].Turn? ensures EnoughAhead(Run(es'[..k]), flush, total) {
        assert es'[..k] == es[..k];
      }
    }

    /** One turn of deflate_slow's loop, with enough lookahead; it stops when output space runs out. */
    method Step(stalled: bool) returns (stop: bool, ghost len: nat, ghost start: int)
      requires Valid() && strstart + MIN_LOOKAHEAD <= window.Length && lookahead > 0
      modifies `strstart, `lookahead, `prevLength, `prevMatch, `matchAvailable, `matchLength, `matchStart, `insH, `ins,
               prev, head
      modifies `lastLit, `symbols, dBuf, lBuf, `sent, `blockStart
      ensures Valid() && lookahead < old(lookahead) && (stop ==> stalled)
      ensures Allowed(old(Now()), Turn(window[..], len, start), data)
      ensures Now() == After(old(Now()), Turn(window[..], len, start))
      ensures symbols == old(symbols) + Out(old(Now()), Turn(window[..], len, start))
    {
      hide Links, Heads, LinkOk, Pow2, Chained, RolledAt, Located, Tallied, Ready, Pending, Told, Searched, Finds,
           Strings, Inserted, Shape, Allowed, Holds;
      HoldsNow();
      WasInserted(strstart, strstart + lookahead);
      ShapeIs();
      Search();
      len, start := matchLength, matchStart;
      AllowedTurn(old(Now()), len, start);
      SearchFacts();
      if prevLength >= MIN_MATCH && matchLength <= prevLength {
        stop := UseMatch(stalled);
        MoreStrings(old(strstart), old(strstart) + 1, strstart, old(strstart + lookahead));
      } else {
        stop := PutOff(stalled);
      }
    }

    lemma AllowedTurn(s: Situation, len: nat, start: int)
      requires maxChain >= 4 && s.slid >= 0 && s.p >= 0 && s.ahead > 0 && s.p + MIN_LOOKAHEAD <= window.Length
      requires Holds(window[..], s.slid, s.p + s.ahead, data) && Inserted(s.ins, s.p, s.p + s.ahead, window.Length)
      requires Finds(window[..], s.ins, s.p, s.ahead, s.len, s.start, len, start)
      ensures Allowed(s, Turn(window[..], len, start), data)
    {
      hide Finds;
    }

    lemma HoldsNow()
      requires Located(strstart + lookahead)
      ensures Holds(window[..], slid, strstart + lookahead, data)
    {
      assert data[slid..slid + (strstart + lookahead)] == data[slid..];
    }

    lemma SearchFacts()
      requires Searched()
      ensures matchAvailable ==> strstart >= 1
      ensures prevLength >= MIN_MATCH ==> prevMatch < strstart
    {
    }

    lemma Counted(room: nat)
      requires Tallied(room)
      ensures sent + lastLit == |symbols|
    {
    }

    // ---- filling the window ----

    /** memcpy of the upper half of the window to the lower half. */
    method MoveHalf()
      requires Shape()
      modifies window
      ensures window[..wsize] == old(window[wsize..]) && window[wsize..] == old(window[wsize..])
    {
      for k := 0 to wsize
        invariant forall j | 0 <= j < k :: window[j] == old(window[wsize + j])
        invariant forall j | k <= j < window.Length :: window[j] == old(window[j])
      {
        window[k] := window[wsize + k];
      }
    }

    /** Sliding one of the tables. */
    method SlideTable(table: array<int>)
      modifies table
      ensures table[..] == AllDown(old(table[..]), wsize)
    {
      var n := table.Length;
      while n > 0
        invariant 0 <= n <= table.Length
        invariant forall k | 0 <= k < n :: table[k] == old(table[k])
        invariant forall k | n <= k < table.Length :: table[k] == Down(old(table[k]), wsize)
      {
        n := n - 1;
        table[n] := Down(table[n], wsize);
      }
    }

    /** The upper half becomes the lower half, and positions in the tables move along. */
    method SlideArrays()
      requires Shape()
      modifies window, head, prev
      ensures Moved(old(window[..]), window[..], wsize)
      ensures head[..] == AllDown(old(head[..]), wsize) && prev[..] == AllDown(old(prev[..]), wsize)
    {
      hide Pow2;
      ghost var w0 := window[..];
      MoveHalf();
      assert window[..][..wsize] == window[..wsize] && w0[wsize..] == old(window[wsize..]);
      SlideTable(head);
      SlideTable(prev);
    }

    /** The arrays have slid, the positions have not. */
    ghost predicate SlidUnder(top: int, end: int)
      reads `data, `slid, `ins, window, prev, head
    {
      && prev.Length == wsize <= end <= window.Length && |data| == slid + end
          && window[..end - wsize] == data[slid + wsize..]
      && Links(prev[..], window[..], SetDown(ins, wsize, top), top - wsize, end - wsize, hashShift, hashBits)
      && Heads(head[..], prev.Length, window[..], SetDown(ins, wsize, top), top - wsize, hashShift, hashBits)
    }

    method SlideContents()
      requires Shape() && Located(strstart + lookahead) && Chained(strstart, strstart + lookahead)
      requires strstart >= wsize + MaxDist()
      modifies window, head, prev
      ensures SlidUnder(strstart, strstart + lookahead) && Moved(old(window[..]), window[..], wsize)
    {
      hide Links, Heads, Pow2, Moved, Parameters, SetDown;
      Bounded();
      ghost var w0, h0, p0, end := window[..], head[..], prev[..], strstart + lookahead;
      SlideArrays();
      MovedDown(w0, window[..], wsize, strstart, end);
      Slide(h0, p0, w0, ins, strstart, end, hashShift, hashBits, window[..]);
      MovedData(w0, window[..], wsize, data, slid, end);
    }

    lemma RolledIs(p: int)
      requires RolledAt(p)
      ensures 0 <= p && p + 1 < window.Length && Rolled(insH, window[p], window[p + 1], hashShift, hashBits)
    {
    }

    /** The hash that was ready for the string at p is ready for it where it is now. */
    lemma RolledDown(w: seq<Byte>, p: int, end: int)
      requires Shape() && Moved(w, window[..], wsize) && wsize <= p && p + 1 < end <= |w|
      requires Rolled(insH, w[p], w[p + 1], hashShift, hashBits)
      ensures RolledAt(p - wsize)
    {
      hide Rolled, Pow2;
      MovedDown(w, window[..], wsize, p, end);
    }

    /** The window slides by half its size, and the dictionary with it. */
    method SlideWindow()
      requires Shape() && Located(strstart + lookahead) && Chained(strstart, strstart + lookahead) && Ready()
               && Pending()
      requires strstart >= wsize + MaxDist()
      modifies window, head, prev, `matchStart, `strstart, `blockStart, `slid, `ins
      ensures Located(strstart + lookahead) && Chained(strstart, strstart + lookahead) && Ready() && Pending()
      ensures strstart == old(strstart) - wsize && slid == old(slid) + wsize && matchStart == old(matchStart) - wsize
      ensures ins == SetDown(old(ins), wsize, old(strstart))
    {
      hide Pow2, Rolled, Pending, Parameters, Awaits, Moved, Located, Chained, SlidUnder, RolledAt, SetDown,
           EarlierThan;
      Bounded();
      PendingIs();
      if lookahead >= MIN_MATCH { RolledIs(strstart); }
      ghost var w0 := window[..];
      EarlierDown();
      SlideContents();
      if lookahead >= MIN_MATCH { RolledDown(w0, strstart, strstart + lookahead); }
      MoveDown();
      StillPending();
    }

    lemma EarlierDown()
      requires EarlierThan(ins, strstart - insert)
      ensures EarlierThan(SetDown(ins, wsize, strstart), strstart - wsize - insert)
    {
      forall q | q in SetDown(ins, wsize, strstart) ensures q < strstart - wsize - insert {
        DownIn(ins, wsize, strstart, q);
      }
    }

    /** The positions follow. */
    method MoveDown()
      requires Shape() && SlidUnder(strstart, strstart + lookahead) && strstart >= wsize + 2
      modifies `matchStart, `strstart, `blockStart, `slid, `ins
      ensures Located(strstart + lookahead) && Chained(strstart, strstart + lookahead)
      ensures strstart == old(strstart) - wsize && slid == old(slid) + wsize && matchStart == old(matchStart) - wsize
      ensures ins == SetDown(old(ins), wsize, old(strstart))
    {
      hide Links, Heads, Pow2, Parameters, SetDown;
      ins := SetDown(ins, wsize, strstart);
      matchStart := matchStart - wsize;
      strstart := strstart - wsize;
      blockStart := blockStart - wsize;
      slid := slid + wsize;
    }

    lemma PendingIs()
      requires Pending()
      ensures Awaits(data, matchAvailable, lookahead, MaxDist(), matchLength, matchStart - strstart, slid + strstart)
    {
      hide IsMatch;
    }

    /** Copying n bytes of input to the end of the data in the window. */
    method CopyInput(n: nat)
      requires next + n <= |input| && strstart + lookahead + n <= window.Length
      modifies window
      ensures window[..][..strstart + lookahead + n] == old(window[..])[..strstart + lookahead] + input[next..next + n]
    {
      var end := strstart + lookahead;
      for k := 0 to n
        invariant forall j | 0 <= j < end :: window[j] == old(window[j])
        invariant forall j | end <= j < end + k :: window[j] == input[next + (j - end)]
      {
        window[end + k] := input[next + k];
      }
    }

    /** The window already holds what is to be added to the data. */
    ghost predicate Extended(chunk: seq<Byte>, end: int)
      reads `data, `slid, `ins, `strstart, window, prev, head
    {
      && 0 <= end && |data| == slid + end && end + |chunk| <= window.Length
      && window[..end + |chunk|] == (data + chunk)[slid..]
      && Links(prev[..], window[..], ins, strstart, end + |chunk|, hashShift, hashBits)
      && Heads(head[..], prev.Length, window[..], ins, strstart, hashShift, hashBits)
    }

    method ReadBytes(n: nat)
      requires Shape() && Located(strstart + lookahead) && Chained(strstart, strstart + lookahead)
      requires next + n <= |input| && strstart + lookahead + n <= window.Length
      modifies window
      ensures Extended(input[next..next + n], strstart + lookahead)
    {
      hide Links, Heads, Pow2, Parameters;
      ghost var w0, end, chunk := window[..], strstart + lookahead, input[next..next + n];
      CopyInput(n);
      GrownData(w0, window[..], data, chunk, slid, end, 0);
      MoreData(head[..], prev[..], w0, ins, strstart, end, hashShift, hashBits, window[..], end + n);
    }

    /** read_buf, to the end of the data in the window; the checksum of the input is another matter. */
    method ReadBuf(more: nat) returns (n: nat)
      requires Shape() && Located(strstart + lookahead) && Chained(strstart, strstart + lookahead) && Pending()
      requires Told(slid + strstart - Held()) && next <= |input| && strstart + lookahead + more <= window.Length
      modifies window, `next, `lookahead, `data
      ensures Located(strstart + lookahead) && Chained(strstart, strstart + lookahead) && Pending()
      ensures Told(slid + strstart - Held()) && next <= |input|
      ensures n == (if |input| - old(next) < more then |input| - old(next) else more)
      ensures lookahead == old(lookahead) + n && next == old(next) + n && data == old(data) + input[old(next)..next]
    {
      hide Links, Heads, Pow2, Expand, Sound, Parameters, Awaits, Pending, Chained, Located, Extended, Told;
      n := |input| - next;
      if n > more { n := more; }
      ghost var chunk := input[next..next + n];
      Available();
      ReadBytes(n);
      PendingIs();
      AwaitsGrows(data, matchAvailable, lookahead, MaxDist(), matchLength, matchStart - strstart, slid + strstart,
                  chunk);
      AddData(n, chunk);
      next := next + n;
      StillPending();
    }

    method AddData(n: nat, ghost chunk: seq<Byte>)
      requires Shape() && |chunk| == n && Extended(chunk, strstart + lookahead) && Told(slid + strstart - Held())
      modifies `data, `lookahead
      ensures data == old(data) + chunk && lookahead == old(lookahead) + n && Told(slid + strstart - Held())
      ensures Located(strstart + lookahead) && Chained(strstart, strstart + lookahead)
    {
      hide Links, Heads, Pow2, Parameters, Sound, Expand;
      ghost var pos := slid + strstart - Held();
      assert (data + chunk)[..pos] == data[..pos];
      data := data + chunk;
      lookahead := lookahead + n;
    }

    lemma Available()
      requires Pending()
      ensures matchAvailable ==> strstart >= 1
    {
    }

    lemma StillPending()
      requires Awaits(data, matchAvailable, lookahead, MaxDist(), matchLength, matchStart - strstart, slid + strstart)
      requires matchAvailable ==> strstart >= 1
      ensures Pending()
    {
      hide IsMatch;
    }

    /** Making the hash ready for what lies ahead, and inserting the strings that were left over. */
    method InitHash()
      requires Shape() && Located(strstart + lookahead) && Chained(strstart, strstart + lookahead) && insert <= strstart
               && insert <= 2 && EarlierThan(ins, strstart - insert)
      modifies `insert, `insH, `ins, prev, head
      ensures Chained(strstart, strstart + lookahead) && Ready()
      ensures ins == old(ins) + Strings(strstart - old(insert), strstart - insert, strstart + lookahead)
      ensures insert == LeftOver(old(insert), lookahead)
    {
      hide Links, Heads, Pow2, Chained, Located, Rolled, Update, EarlierThan, Strings;
      NoStrings(strstart - insert, strstart + lookahead);
      Bounded();
      if lookahead + insert >= MIN_MATCH {
        var str := strstart - insert;
        insH := window[str];
        insH := Update(insH, window[str + 1], hashShift, hashBits);
        assert RolledAt(str) by { JustRolled(window[str], window[str + 1]); }
        while insert != 0
          invariant insert <= 2 && str + insert == strstart && lookahead + insert >= MIN_MATCH
          invariant Chained(strstart, strstart + lookahead) && RolledAt(str) && EarlierThan(ins, str)
          invariant ins == old(ins) + Strings(strstart - old(insert), str, strstart + lookahead)
        {
          NextString(ins, old(ins), strstart - old(insert), str, strstart + lookahead, 0);
          var previous := InsertString(str, strstart, strstart, strstart + lookahead);
          str := str + 1;
          insert := insert - 1;
          if lookahead + insert < MIN_MATCH { break; }
        }
      }
    }

    lemma JustRolled(a: Byte, b: Byte)
      ensures Rolled(Update(a, b, hashShift, hashBits), a, b, hashShift, hashBits)
    {
    }

    /** Zeroing what longest_match may read beyond the data. */
    method ZeroAhead()
      requires Valid()
      modifies window, `highWater
      ensures Valid()
    {
      hide Links, Heads, Pow2, Rolled, Pending, Told, Tallied, EarlierThan;
      var curr := strstart + lookahead;
      if highWater < window.Length {
        var init: nat;
        if highWater < curr {
          init := window.Length - curr;
          if init > WIN_INIT { init := WIN_INIT; }
          Zero(curr, init, curr);
          highWater := curr + init;
        } else if highWater < curr + WIN_INIT {
          init := curr + WIN_INIT - highWater;
          if init > window.Length - highWater { init := window.Length - highWater; }
          Zero(highWater, init, curr);
          highWater := highWater + init;
        }
      }
    }

    method Zero(from: nat, n: nat, ghost end: int)
      requires Shape() && end <= from && from + n <= window.Length && Located(end) && Chained(strstart, end)
      modifies window
      ensures Located(end) && Chained(strstart, end) && forall k | 0 <= k < end :: window[k] == old(window[k])
    {
      hide Links, Heads, Pow2;
      ghost var w0 := window[..];
      for k := 0 to n
        invariant forall j | 0 <= j < from :: window[j] == w0[j]
      {
        window[from + k] := 0;
      }
      assert window[..end] == w0[..end];
      MoreData(head[..], prev[..], w0, ins, strstart, end, hashShift, hashBits, window[..], end);
    }

    /** The input taken since there were before bytes, start of them at hand. */
    ghost predicate Took(before: seq<Byte>, start: nat, ahead: nat)
      reads `data, `input, `next, `lookahead
    {
      start <= next <= |input| && data == before + input[start..next] && lookahead == ahead + (next - start)
    }

    /** Sliding if need be; how much can be read then. */
    method MakeRoom(ghost before: seq<Byte>, ghost start: nat, ghost ahead: nat) returns (more: nat)
      requires Valid() && lookahead < MIN_LOOKAHEAD && Took(before, start, ahead)
      modifies window, prev, head, `matchStart, `strstart, `blockStart, `slid, `ins
      ensures Valid() && Took(before, start, ahead) && Now() == Lowered(old(Now()))
      ensures more == window.Length - lookahead - strstart && more >= 2 && strstart < wsize + MaxDist()
    {
      hide Links, Heads, Pow2, Chained, RolledAt, Tallied, Pending, Told, Parameters, Located, Ready, SetDown;
      Bounded();
      more := window.Length - lookahead - strstart;
      if strstart >= wsize + MaxDist() {
        SlideWindow();
        more := more + wsize;
      }
    }

    /** One round: sliding if need be, and reading as much as there is room for. */
    method FillOnce(ghost before: seq<Byte>, ghost start: nat, ghost ahead: nat) returns (none: bool)
      requires Valid() && lookahead < MIN_LOOKAHEAD && Took(before, start, ahead)
      modifies window, prev, head, `next, `lookahead, `data, `matchStart, `strstart, `blockStart, `slid, `ins, `insert,
               `insH
      ensures Valid() && strstart + MIN_LOOKAHEAD <= window.Length && Took(before, start, ahead)
      ensures none <==> old(next) == |input|
      ensures none ==> next == |input| && lookahead == old(lookahead)
      ensures !none ==> next > old(next)
      ensures Now() == Filled(Lowered(old(Now())), lookahead) && old(data) <= data && lookahead >= old(lookahead)
    {
      hide Links, Heads, Pow2, Chained, RolledAt, Tallied, Pending, Told, Parameters, Located, Ready, Strings, SetDown,
           Lowered;
      var more := MakeRoom(before, start, ahead);
      InsertFacts();
      if next == |input| {
        NoStrings(strstart - insert, strstart + lookahead);
        assert ins + {} == ins;
        return true;
      }
      var n := ReadBuf(more);
      InitHash();
      return false;
    }

    lemma FillIs(s: Situation, symbols0: seq<Symbol>)
      requires Valid() && s.ahead <= lookahead && s.ahead < MIN_LOOKAHEAD && symbols == symbols0
      requires Now() == Filled(Lowered(s), lookahead)
      ensures Now() == After(s, Fill(lookahead)) && Allowed(s, Fill(lookahead), data)
      ensures symbols == symbols0 + Out(s, Fill(lookahead))
    {
      hide Links, Heads, Pow2, Chained, RolledAt, Tallied, Pending, Told, Parameters, Ready, Strings, SetDown;
    }

    lemma TookMore(data0: seq<Byte>, start: nat, data1: seq<Byte>, middle: nat)
      requires start <= middle <= next <= |input|
      requires data1 == data0 + input[start..middle] && data == data1 + input[middle..next]
      ensures data == data0 + input[start..next]
    {
      assert input[start..next] == input[start..middle] + input[middle..next];
    }

    /** fill_window. */
    method FillWindow()
      requires Valid() && Narrated() && lookahead < MIN_LOOKAHEAD
      modifies window, prev, head, `next, `lookahead, `data, `matchStart, `strstart, `blockStart, `slid, `ins, `insert,
               `insH, `highWater, `events
      ensures Valid() && Narrated() && strstart + MIN_LOOKAHEAD <= window.Length && OnlyFilled(old(events), events)
      ensures Took(old(data), old(next), old(lookahead)) && (lookahead < MIN_LOOKAHEAD ==> next == |input|)
    {
      hide Pow2, Valid, Narrated, Allowed, After, Out, Run, Output, Justified, Filled, Lowered;
      ReadInInput();
      assert Took(old(data), old(next), old(lookahead)) by { assert input[next..next] == []; }
      while true
        invariant Valid() && Narrated() && lookahead < MIN_LOOKAHEAD && OnlyFilled(old(events), events)
        invariant Took(old(data), old(next), old(lookahead))
        decreases |input| - next
      {
        NarratedIs();
        ghost var s0, symbols0, data0 := Now(), symbols, data;
        var none := FillOnce(old(data), old(next), old(lookahead));
        FillIs(s0, symbols0);
        Record(s0, symbols0, data0, Fill(lookahead));
        if none || !(lookahead < MIN_LOOKAHEAD && next < |input|) { break; }
      }
      ZeroAhead();
    }

    lemma ReadInInput()
      requires Valid()
      ensures next <= |input|
    {
    }

    lemma InsertFacts()
      requires Ready()
      ensures insert <= strstart && insert <= 2 && EarlierThan(ins, strstart - insert)
      ensures LeftOver(insert, lookahead) == insert
    {
    }

    // ---- deflate_slow ----

    /** Everything read has become symbols, and all of them are in finished blocks. */
    ghost predicate AllTold()
      reads `matchAvailable, `lookahead, `symbols, `data, `lastLit, `sent
    {
      !matchAvailable && lookahead == 0 && Sound(symbols, MaxDist()) && Expand(symbols) == data && lastLit == 0
          && sent == |symbols|
    }

    /** What is left of the input when the window is empty: the literal that was waiting. */
    method LastLiteral()
      requires Valid() && lookahead == 0
      modifies `matchAvailable, `insert, `lastLit, `symbols, dBuf, lBuf
      ensures Shape() && next <= |input| && Located(strstart) && Chained(strstart, strstart) && Ready() && Pending()
      ensures Told(slid + strstart) && Tallied(1) && !matchAvailable
      ensures insert == if strstart < MIN_MATCH - 1 then strstart else MIN_MATCH - 1
      ensures old(matchAvailable) ==> 0 < strstart <= window.Length
      ensures symbols == old(symbols) + if old(matchAvailable) then [Literal(window[strstart - 1])] else []
    {
      hide Links, Heads, Pow2, Chained, RolledAt, Located, Told, Parameters, Tallied;
      Available();
      if matchAvailable {
        var bflush := EmitLiteral();
        if !bflush { FewerRoom(); }
        matchAvailable := false;
      } else {
        FewerRoom();
      }
      insert := if strstart < MIN_MATCH - 1 then strstart else MIN_MATCH - 1;
      WasInserted(strstart, strstart);
    }

    lemma FewerRoom()
      requires Tallied(2)
      ensures Tallied(1)
    {
    }

    lemma ToldAll()
      requires Located(strstart) && Told(slid + strstart)
      ensures Sound(symbols, MaxDist()) && Expand(symbols) == data
    {
      hide Sound, Expand;
      assert data[..slid + strstart] == data;
    }

    method LastAndTell()
      requires Valid() && Narrated() && lookahead == 0
      modifies `matchAvailable, `insert, `lastLit, `symbols, `events, dBuf, lBuf
      ensures Shape() && next <= |input| && Located(strstart) && Chained(strstart, strstart) && Ready() && Pending()
      ensures Told(slid + strstart) && Tallied(1) && !matchAvailable
      ensures Narrated() && exists c :: events == old(events) + [LastByte(c)]
    {
      hide Pow2, Valid, Narrated, Allowed, After, Out, Run, Output, Justified, Located, Chained, Ready, Pending, Told,
           Tallied, Shape;
      ghost var s0, symbols0 := Now(), symbols;
      ghost var c := Waiting();
      NarratedIs();
      LastLiteral();
      LastIs(s0, symbols0, c);
      Record(s0, symbols0, data, LastByte(c));
    }

    /** The byte that waits, if one does. */
    ghost method Waiting() returns (c: Byte)
      requires Valid() && lookahead == 0
      ensures matchAvailable ==> 0 < strstart <= window.Length && 0 < slid + strstart <= |data|
                                 && c == window[strstart - 1] == data[slid + strstart - 1]
    {
      hide Links, Heads, Pow2, Chained, RolledAt, Tallied, Pending, Told, Parameters, Ready, Strings, SetDown, Located;
      c := 0;
      Available();
      Bounded();
      if matchAvailable {
        ByteAt(strstart - 1, strstart);
        c := window[strstart - 1];
      }
    }

    lemma LastIs(s: Situation, symbols0: seq<Symbol>, c: Byte)
      requires s.ahead == 0 && Now() == s.(waiting := false, left := if strstart < 2 then strstart else 2)
      requires s.waiting ==> 0 < slid + strstart <= |data| && c == data[slid + strstart - 1]
      requires symbols == symbols0 + if s.waiting then [Literal(c)] else []
      ensures Now() == After(s, LastByte(c)) && Allowed(s, LastByte(c), data)
      ensures symbols == symbols0 + Out(s, LastByte(c))
    {
    }

    /** The end of deflate_slow, when there is no more input. */
    method EndBlock(flush: Flush, stalled: bool) returns (r: BlockState)
      requires Valid() && Narrated() && lookahead == 0 && flush != NO_FLUSH
      modifies `matchAvailable, `insert, `lastLit, `symbols, `sent, `blockStart, `events, dBuf, lBuf
      ensures Valid() && Narrated() && (exists c :: events == old(events) + [LastByte(c)])
      ensures (r == NeedMore || r == FinishStarted ==> stalled)
      ensures r != NeedMore ==> AllTold()
      ensures if flush == FINISH then r == FinishStarted || r == FinishDone else r == NeedMore || r == BlockDone
    {
      hide Links, Heads, Pow2, Chained, RolledAt, Located, Told, Parameters, Tallied, Ready, Pending, Sound, Expand,
           Narrated;
      LastAndTell();
      ToldAll();
      Counted(1);
      if flush == FINISH {
        FlushBlock();
        return if stalled then FinishStarted else FinishDone;
      }
      if lastLit != 0 {
        FlushBlock();
        if stalled { return NeedMore; }
      } else {
        RoomAgain();
      }
      return BlockDone;
    }

    lemma RoomAgain()
      requires Shape() && Tallied(1) && lastLit == 0
      ensures Tallied(2)
    {
    }

    /** One turn, with enough ahead or all there is. */
    method TakeTurn(flush: Flush, stalled: bool, ghost from: nat, ghost total: int) returns (stop: bool)
      requires Valid() && Narrated() && strstart + MIN_LOOKAHEAD <= window.Length && lookahead > 0
      requires Patient(events, from, flush, total)
      requires lookahead >= MIN_LOOKAHEAD || (flush != NO_FLUSH && |data| == total)
      modifies `strstart, `lookahead, `prevLength, `prevMatch, `matchAvailable, `matchLength, `matchStart, `insH, `ins,
               prev, head
      modifies `lastLit, `symbols, dBuf, lBuf, `sent, `blockStart, `events
      ensures Valid() && Narrated() && lookahead < old(lookahead) && (stop ==> stalled)
      ensures Patient(events, from, flush, total) && old(events) <= events
    {
      hide Pow2, Valid, Narrated, Allowed, After, Out, Run, Output, Justified, Patient;
      NarratedIs();
      AllData();
      ghost var s0, symbols0, len, start := Now(), symbols, 0, 0;
      PatientMore(events, Turn(window[..], 0, 0), from, flush, total);
      stop, len, start := Step(stalled);
      PatientMore(events, Turn(window[..], len, start), from, flush, total);
      Record(s0, symbols0, data, Turn(window[..], len, start));
    }

    lemma AllData()
      requires Valid()
      ensures |data| == slid + strstart + lookahead
    {
    }

    /** Input taken since there was this data and the next byte was that. */
    ghost predicate Reading(data0: seq<Byte>, next0: nat)
      reads `data, `input, `next
    {
      next0 <= next <= |input| && data == data0 + input[next0..next]
    }

    /** fill_window, in deflate_slow. */
    method Refill(flush: Flush, ghost data0: seq<Byte>, ghost next0: nat, ghost from: nat)
      requires Valid() && Narrated() && Reading(data0, next0) && lookahead < MIN_LOOKAHEAD
      requires Patient(events, from, flush, |data0| + |input| - next0)
      modifies window, prev, head, `next, `lookahead, `data, `matchStart, `strstart, `blockStart, `slid, `ins, `insert,
               `insH, `highWater, `events
      ensures Valid() && Narrated() && Reading(data0, next0) && old(events) <= events
      ensures strstart + MIN_LOOKAHEAD <= window.Length && (lookahead < MIN_LOOKAHEAD ==> next == |input|)
      ensures Patient(events, from, flush, |data0| + |input| - next0)
      ensures lookahead + (|input| - next) == old(lookahead + (|input| - next))
    {
      hide Valid, Narrated, Patient;
      ghost var data1, next1 := data, next;
      FillWindow();
      TookMore(data0, next0, data1, next1);
      PatientFilling(old(events), events, from, flush, |data0| + |input| - next0);
    }

    lemma Enough()
      requires Valid() && lookahead >= MIN_LOOKAHEAD
      ensures strstart + MIN_LOOKAHEAD <= window.Length
    {
    }

    /** deflate_slow: stalls(k) says whether output space has run out by the k-th turn. */
    method DeflateSlow(flush: Flush, stalls: nat -> bool) returns (r: BlockState)
      requires Valid() && Narrated()
      modifies this, window, prev, head, dBuf, lBuf
      ensures Valid() && Narrated() && finished == old(finished) && input == old(input)
      ensures Reading(old(data), old(next))
      ensures r != NeedMore ==> AllTold() && next == |input| && flush != NO_FLUSH
      ensures r == NeedMore ==>
                (exists k: nat :: stalls(k)) || (flush == NO_FLUSH && next == |input| && lookahead < MIN_LOOKAHEAD)
      ensures r == FinishStarted ==> exists k: nat :: stalls(k)
      ensures r == FinishStarted || r == FinishDone ==> flush == FINISH
      ensures r == BlockDone ==> flush != FINISH
      ensures old(events) <= events
      ensures Patient(events, old(|events|), flush, old(|data| + |input| - next))
    {
      hide Pow2, Valid, Narrated, Allowed, After, Out, Run, Output, Justified, Patient, AllTold;
      ReadInInput();
      assert input[next..next] == [];
      ghost var from, total := |events|, |data| + |input| - next;
      assert Patient(events, from, flush, total) by { NotYet(events, flush, total); }
      var turn := 0;
      while true
        invariant Valid() && Narrated() && finished == old(finished) && input == old(input)
        invariant Reading(old(data), old(next)) && old(events) <= events && Patient(events, from, flush, total)
        decreases lookahead + (|input| - next)
      {
        if lookahead < MIN_LOOKAHEAD {
          Refill(flush, old(data), old(next), from);
          if lookahead < MIN_LOOKAHEAD && flush == NO_FLUSH { return NeedMore; }
          if lookahead == 0 { break; }
        } else {
          Enough();
        }
        var stop := TakeTurn(flush, stalls(turn), from, total);
        if stop { return NeedMore; }
        turn := turn + 1;
      }
      ghost var es := events;
      r := EndBlock(flush, stalls(turn));
      ghost var c :| events == es + [LastByte(c)];
      PatientMore(es, LastByte(c), from, flush, total);
    }

    lemma NotYet(es: seq<Event>, flush: Flush, total: int)
      ensures Patient(es, |es|, flush, total)
    {
    }

    // ---- deflate ----

    /** CLEAR_HASH. */
    method ClearHash(ghost top: int, ghost end: int)
      requires Shape() && end <= window.Length
      modifies head, `ins
      ensures Chained(top, end) && ins == {}
    {
      hide Links, Heads, Pow2;
      for k := 0 to head.Length
        invariant forall j | 0 <= j < k :: head[j] == NIL
      {
        head[k] := NIL;
      }
      ins := {};
      Nothing(head[..], prev[..], window[..], top, end, hashShift, hashBits);
    }

    /** A full flush forgets the history; with nothing ahead, the window starts over. */
    method FullFlush()
      requires Valid() && !matchAvailable && lookahead == 0
      modifies head, `ins, `slid, `strstart, `blockStart, `insert
      ensures Valid() && Now() == old(Situation(slid + strstart, 0, 0, {}, 0, false, matchLength, matchStart))
    {
      hide Links, Heads, Pow2, Parameters, Tallied, Rolled, Sound, Expand, IsMatch, Chained, RolledAt, MatchAt;
      assert window[..0] == [] && data[slid + strstart..] == [];
      ClearHash(0, 0);
      slid := slid + strstart;
      strstart, blockStart, insert := 0, 0, 0;
    }

    /** The same, after everything has been told. */
    method FlushAndTell(flush: Flush, ghost from: nat, ghost total: int)
      requires Valid() && Narrated() && AllTold() && Patient(events, from, flush, total)
      modifies head, `ins, `slid, `strstart, `blockStart, `insert, `events
      ensures Valid() && Narrated() && old(events) <= events && Patient(events, from, flush, total)
    {
      hide Pow2, Valid, Narrated, Run, Output, Justified, Patient, Sound, Expand;
      NarratedIs();
      ghost var s0, symbols0 := Now(), symbols;
      FullFlush();
      PatientMore(events, Forget, from, flush, total);
      Record(s0, symbols0, data, Forget);
    }

    method Offer(chunk: seq<Byte>)
      requires Valid()
      modifies `input, `next
      ensures Valid() && input == chunk && next == 0
    {
      hide Links, Heads, Pow2, Parameters, Tallied, Ready, Pending, Told, Chained, Located;
      input, next := chunk, 0;
    }

    /** deflate, with this chunk as the input at hand; used is how much of it is taken. */
    method Deflate(chunk: seq<Byte>, flush: Flush, stalls: nat -> bool) returns (r: BlockState, used: nat)
      requires Valid() && Narrated() && !finished
      modifies this, window, prev, head, dBuf, lBuf
      ensures Valid() && Narrated() && old(events) <= events
      ensures Patient(events, old(|events|), flush, old(|data|) + |chunk|)
      ensures used <= |chunk| && data == old(data) + chunk[..used]
      ensures r != NeedMore ==> AllTold() && used == |chunk|
      ensures r == NeedMore ==> (exists k: nat :: stalls(k)) || (flush == NO_FLUSH && used == |chunk|)
      ensures r == FinishStarted ==> exists k: nat :: stalls(k)
      ensures finished == (r == FinishStarted || r == FinishDone) && (finished ==> flush == FINISH)
      ensures flush == FINISH ==> r != BlockDone
    {
      hide Pow2, Valid, Narrated, Patient, AllTold;
      Offer(chunk);
      r := NeedMore;
      assert chunk[..0] == [];
      NotYet(events, flush, |data| + |chunk|);
      if |chunk| != 0 || lookahead != 0 || flush != NO_FLUSH {
        r := DeflateSlow(flush, stalls);
        assert chunk[0..next] == chunk[..next];
        finished := r == FinishStarted || r == FinishDone;
        if r == BlockDone && flush == FULL_FLUSH { FlushAndTell(flush, old(|events|), old(|data|) + |chunk|); }
      }
      used := next;
    }
  }

  /** One call of deflate: further input, how to flush, and when output space runs out. */
  datatype Call = Call(chunk: seq<Byte>, flush: Flush, stalls: nat -> bool)

  ghost predicate NoStalls(calls: seq<Call>) {
    forall k, t: nat | 0 <= k < |calls| :: !calls[k].stalls(t)
  }

  function Chunks(calls: seq<Call>): (r: seq<seq<Byte>>)
    ensures |r| == |calls| && forall k | 0 <= k < |calls| :: r[k] == calls[k].chunk
  {
    seq(|calls|, k requires 0 <= k < |calls| => calls[k].chunk)
  }

  /** A stream of calls up to the one that finishes it; input that was not taken is offered again. However
      the input is cut up and flushed, the symbols of a finished stream expand to all that was offered. */
  method DeflateAll(state: DeflateState, calls: seq<Call>) returns (n: nat, rest: seq<Byte>)
    requires state.Valid() && state.Narrated() && !state.finished && state.data == [] && state.symbols == []
    modifies state, state.window, state.prev, state.head, state.dBuf, state.lBuf
    ensures state.Valid() && state.Narrated() && n <= |calls| && state.data + rest == Flatten(Chunks(calls[..n]))
    ensures Sound(state.symbols, state.MaxDist()) && Expand(state.symbols) <= state.data
    ensures state.finished ==> n > 0 && calls[n - 1].flush == FINISH && rest == []
    ensures state.finished ==> Expand(state.symbols) == Flatten(Chunks(calls[..n]))
    ensures !state.finished ==> n == |calls|
    ensures |calls| > 0 && calls[|calls| - 1].flush == FINISH && NoStalls(calls) ==> state.finished
  {
    hide DeflateState.Valid, DeflateState.Narrated, DeflateState.Patient, DeflateState.AllTold, Sound, Expand, Flatten;
    n, rest := 0, [];
    assert Chunks(calls[..0]) == [] && state.data + rest == Flatten<Byte>([]) by { FlattenNone<Byte>(); }
    while n < |calls| && !state.finished
      invariant state.Valid() && state.Narrated() && n <= |calls| && state.data + rest == Flatten(Chunks(calls[..n]))
      invariant state.finished ==> n > 0 && calls[n - 1].flush == FINISH && rest == [] && state.AllTold()
      invariant n > 0 && calls[n - 1].flush == FINISH && NoStalls(calls) ==> state.finished
    {
      var call := calls[n];
      ghost var data0 := state.data;
      var r, used := state.Deflate(rest + call.chunk, call.flush, call.stalls);
      OneMoreCall(calls, n, data0, rest);
      assert data0 + (rest + call.chunk) == state.data + (rest + call.chunk)[used..];
      rest := (rest + call.chunk)[used..];
      n := n + 1;
    }
    state.Sofar();
    if state.finished { assert state.data + [] == state.data; }
  }

  lemma OneMoreCall(calls: seq<Call>, n: nat, data: seq<Byte>, rest: seq<Byte>)
    requires n < |calls| && data + rest == Flatten(Chunks(calls[..n]))
    ensures data + (rest + calls[n].chunk) == Flatten(Chunks(calls[..n + 1]))
  {
    assert Chunks(calls[..n + 1]) == Chunks(calls[..n]) + [calls[n].chunk];
    FlattenMore(Chunks(calls[..n]), calls[n].chunk);
  }

  lemma ThreeBytes(w: seq<Byte>, a: int, b: int)
    requires 0 <= a < b && b + 3 <= |w| && w[a] == w[b] && w[a + 1] == w[b + 1] && w[a + 2] == w[b + 2]
    ensures SameBytes(w, a, b, MIN_MATCH)
  {
  }
}
