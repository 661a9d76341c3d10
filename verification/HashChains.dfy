/** deflate's dictionary: head has the latest string with each key, prev links each string to the one
    before it; positions are window positions, 0 ends a chain, and links of old strings are overwritten. */
module HashChains {
  import opened Permutations
  import opened Bits
  import opened HashKeys

  /** The key of the string at q. */
  function KeyAt(w: seq<Byte>, q: int, shift: nat, bits: nat): (r: nat)
    requires 0 <= q && q + MIN_MATCH <= |w|
    ensures r < Pow2(bits)
  {
    Key(w[q], w[q + 1], w[q + 2], shift, bits)
  }

  /** The strings inserted lie within the data, before top. */
  ghost predicate Inserted(ins: set<int>, top: int, end: int, size: int) {
    end <= size && forall q | q in ins :: 0 <= q < top && q + MIN_MATCH <= end
  }

  /** A string in the dictionary, with this key, to which links can lead. */
  ghost predicate Entry(w: seq<Byte>, ins: set<int>, key: nat, shift: nat, bits: nat, x: int) {
    x > 0 && x in ins && x + MIN_MATCH <= |w| && KeyAt(w, x, shift, bits) == key
  }

  /** The latest of them before a position, or 0. */
  ghost function Latest(w: seq<Byte>, ins: set<int>, key: nat, shift: nat, bits: nat, below: int): (x: int)
    ensures 0 <= x && (x > 0 ==> x < below && Entry(w, ins, key, shift, bits, x))
    ensures forall q | x < q < below :: !Entry(w, ins, key, shift, bits, q)
    decreases below
  {
    if below <= 1 then 0
    else if Entry(w, ins, key, shift, bits, below - 1) then below - 1
    else Latest(w, ins, key, shift, bits, below - 1)
  }

  /** From inserted strings that are not too old, links lead to the latest string before with the same key. */
  ghost predicate Links(prev: seq<int>, w: seq<Byte>, ins: set<int>, top: int, end: int, shift: nat, bits: nat) {
    && |prev| > 0 && Inserted(ins, top, end, |w|)
    && forall q | q in ins && q + |prev| > top ::
          LinkOk(prev[q % |prev|], KeyAt(w, q, shift, bits), q, |prev|, w, ins, top, shift, bits)
  }

  /** x is the latest string before a position with this key, unless both are too old. */
  ghost predicate LinkOk(x: int, key: nat, below: int, wsize: int, w: seq<Byte>, ins: set<int>, top: int, shift: nat,
                         bits: nat) {
    var y := Latest(w, ins, key, shift, bits, below);
    x >= 0 && (x == y || (x + wsize <= top && y + wsize <= top))
  }

  /** The latest string depends on those before the position alone. */
  lemma {:induction false} SameLatest(w: seq<Byte>, ins: set<int>, w': seq<Byte>, ins': set<int>, key: nat, shift: nat,
                                      bits: nat, below: int)
    requires forall q | 0 < q < below :: Entry(w, ins, key, shift, bits, q) <==> Entry(w', ins', key, shift, bits, q)
    ensures Latest(w', ins', key, shift, bits, below) == Latest(w, ins, key, shift, bits, below)
    decreases below
  {
    hide Entry;
    if below > 1 { SameLatest(w, ins, w', ins', key, shift, bits, below - 1); }
  }

  /** No string lies between two positions. */
  lemma {:induction false} NoneBetween(w: seq<Byte>, ins: set<int>, key: nat, shift: nat, bits: nat, below: int,
                                       below': int)
    requires below <= below' && forall q | q in ins :: q < below
    ensures Latest(w, ins, key, shift, bits, below') == Latest(w, ins, key, shift, bits, below)
    decreases below' - below
  {
    if below < below' { NoneBetween(w, ins, key, shift, bits, below, below' - 1); }
  }

  ghost predicate Heads(head: seq<int>, wsize: int, w: seq<Byte>, ins: set<int>, top: int, shift: nat, bits: nat) {
    forall h | 0 <= h < |head| :: LinkOk(head[h], h, top, wsize, w, ins, top, shift, bits)
  }

  /** The latest strings before a position with this key, n of them at most, as far as they lie above the limit. */
  ghost function Recent(w: seq<Byte>, ins: set<int>, key: nat, shift: nat, bits: nat, below: int, limit: int, n: nat)
    : (r: seq<int>)
    ensures |r| <= n && forall k | 0 <= k < |r| ::
              limit < r[k] < below && Entry(w, ins, key, shift, bits, r[k]) && (k > 0 ==> r[k] < r[k - 1])
  {
    var x := Latest(w, ins, key, shift, bits, below);
    if n == 0 || x <= limit || x == 0 then [] else [x] + Recent(w, ins, key, shift, bits, x, limit, n - 1)
  }

  /** They depend on the strings in the dictionary before the position alone. */
  lemma {:induction false} SameRecent(w: seq<Byte>, w': seq<Byte>, ins: set<int>, key: nat, shift: nat, bits: nat,
                                      below: int, limit: int, n: nat)
    requires forall q | 0 < q < below :: Entry(w, ins, key, shift, bits, q) <==> Entry(w', ins, key, shift, bits, q)
    ensures Recent(w', ins, key, shift, bits, below, limit, n) == Recent(w, ins, key, shift, bits, below, limit, n)
  {
    hide Entry;
    SameLatest(w, ins, w', ins, key, shift, bits, below);
    var x := Latest(w, ins, key, shift, bits, below);
    if n > 0 && x > limit && x > 0 { SameRecent(w, w', ins, key, shift, bits, x, limit, n - 1); }
  }

  /** Following a link, as far as strings lie above a limit that is not too old, is going on to the next of them. */
  lemma LinkIsRecent(prev: seq<int>, w: seq<Byte>, ins: set<int>, top: int, end: int, shift: nat, bits: nat, q: int,
                     limit: int, n: nat)
    requires Links(prev, w, ins, top, end, shift, bits) && q in ins && q + |prev| > top && n > 0
    requires limit >= 0 && limit + |prev| >= top
    ensures prev[q % |prev|] >= 0
    ensures var x, key := prev[q % |prev|], KeyAt(w, q, shift, bits);
            Recent(w, ins, key, shift, bits, q, limit, n) ==
            if x <= limit then [] else [x] + Recent(w, ins, key, shift, bits, x, limit, n - 1)
  {
    hide KeyAt, Latest, Entry;
    LinkAt(prev, w, ins, top, end, shift, bits, q);
  }

  lemma HeadAt(head: seq<int>, wsize: int, w: seq<Byte>, ins: set<int>, top: int, shift: nat, bits: nat, h: int)
    requires Heads(head, wsize, w, ins, top, shift, bits) && 0 <= h < |head|
    ensures LinkOk(head[h], h, top, wsize, w, ins, top, shift, bits)
  {
  }

  lemma LinkAt(prev: seq<int>, w: seq<Byte>, ins: set<int>, top: int, end: int, shift: nat, bits: nat, q: int)
    requires Links(prev, w, ins, top, end, shift, bits) && q in ins && q + |prev| > top
    ensures LinkOk(prev[q % |prev|], KeyAt(w, q, shift, bits), q, |prev|, w, ins, top, shift, bits)
  {
  }

  /** Different positions less than a window apart have different slots. */
  lemma SlotsDiffer(q: int, p: int, wsize: int)
    requires wsize > 0 && 0 <= q && 0 <= p && q != p && p - wsize < q < p + wsize
    ensures q % wsize != p % wsize
  {
    if q % wsize == p % wsize {
      var a, b := q / wsize, p / wsize;
      assert q - p == wsize * (a - b) by { MulDiff(wsize, a, b); }
      if a - b >= 1 { MulAtLeast(wsize, a - b); }
      if b - a >= 1 { MulAtLeast(wsize, b - a); MulDiff(wsize, b, a); }
      assert false;
    }
  }

  lemma MulDiff(d: int, a: int, b: int)
    ensures d * (a - b) == d * a - d * b
  {
  }

  lemma MulAtLeast(d: int, k: int)
    requires d > 0 && k >= 1
    ensures d * k >= d
  {
  }

  /** Going on: strings only get older... */
  lemma Older(head: seq<int>, prev: seq<int>, w: seq<Byte>, ins: set<int>, top: int, end: int, shift: nat, bits: nat,
              top': int)
    requires Links(prev, w, ins, top, end, shift, bits) && Heads(head, |prev|, w, ins, top, shift, bits) && top <= top'
    ensures Links(prev, w, ins, top', end, shift, bits) && Heads(head, |prev|, w, ins, top', shift, bits)
  {
    hide KeyAt, Latest;
    forall q | q in ins && q + |prev| > top'
      ensures LinkOk(prev[q % |prev|], KeyAt(w, q, shift, bits), q, |prev|, w, ins, top', shift, bits) {
      LinkAt(prev, w, ins, top, end, shift, bits, q);
    }
    forall h | 0 <= h < |head| ensures LinkOk(head[h], h, top', |prev|, w, ins, top', shift, bits) {
      HeadAt(head, |prev|, w, ins, top, shift, bits, h);
      NoneBetween(w, ins, h, shift, bits, top, top');
    }
  }

  /** ... and more data after the end changes nothing. */
  lemma MoreData(head: seq<int>, prev: seq<int>, w: seq<Byte>, ins: set<int>, top: int, end: int, shift: nat, bits: nat,
                 w': seq<Byte>, end': int)
    requires Links(prev, w, ins, top, end, shift, bits) && Heads(head, |prev|, w, ins, top, shift, bits)
    requires 0 <= end <= end' <= |w'| && w'[..end] == w[..end]
    ensures Links(prev, w', ins, top, end', shift, bits) && Heads(head, |prev|, w', ins, top, shift, bits)
  {
    hide Key, Latest;
    forall q | q in ins ensures KeyAt(w', q, shift, bits) == KeyAt(w, q, shift, bits) {
      assert w'[..end][q] == w[..end][q] && w'[..end][q + 1] == w[..end][q + 1] && w'[..end][q + 2] == w[..end][q + 2];
    }
    forall q | q in ins && q + |prev| > top
      ensures LinkOk(prev[q % |prev|], KeyAt(w', q, shift, bits), q, |prev|, w', ins, top, shift, bits) {
      LinkAt(prev, w, ins, top, end, shift, bits, q);
      SameLatest(w, ins, w', ins, KeyAt(w, q, shift, bits), shift, bits, q);
    }
    forall h | 0 <= h < |head| ensures LinkOk(head[h], h, top, |prev|, w', ins, top, shift, bits) {
      HeadAt(head, |prev|, w, ins, top, shift, bits, h);
      SameLatest(w, ins, w', ins, h, shift, bits, top);
    }
  }

  /** A new string later than all others is the latest with its key from then on, and changes nothing for others. */
  lemma LatestAdded(w: seq<Byte>, ins: set<int>, key: nat, shift: nat, bits: nat, p: int, below: int)
    requires 0 <= p && p + MIN_MATCH <= |w| && forall q | q in ins :: 0 <= q < p
    ensures below <= p ==>
              Latest(w, ins + {p}, key, shift, bits, below) == Latest(w, ins, key, shift, bits, below)
    ensures p < below && KeyAt(w, p, shift, bits) == key ==> Latest(w, ins + {p}, key, shift, bits, below) == p
    ensures p < below && KeyAt(w, p, shift, bits) != key ==>
              Latest(w, ins + {p}, key, shift, bits, below) == Latest(w, ins, key, shift, bits, p)
  {
    hide KeyAt;
    forall q | 0 < q < p
      ensures Entry(w, ins, key, shift, bits, q) <==> Entry(w, ins + {p}, key, shift, bits, q) {}
    if below <= p {
      SameLatest(w, ins, w, ins + {p}, key, shift, bits, below);
    } else {
      SameLatest(w, ins, w, ins + {p}, key, shift, bits, p);
      NoneBetween(w, ins + {p}, key, shift, bits, p + 1, below);
      if p == 0 { NoneBetween(w, ins, key, shift, bits, 0, 1); }
    }
  }

  /** INSERT_STRING at p: the string becomes the head of its chain. */
  lemma Insert(head: seq<int>, prev: seq<int>, w: seq<Byte>, ins: set<int>, top: int, end: int, shift: nat, bits: nat,
               p: int, top': int)
    requires Links(prev, w, ins, top, end, shift, bits) && Heads(head, |prev|, w, ins, top, shift, bits)
    requires 0 <= p < top' && p + MIN_MATCH <= end && top <= top' <= p + |prev| && top' <= top + 1
    requires KeyAt(w, p, shift, bits) < |head| && forall q | q in ins :: q < p
    ensures var h := KeyAt(w, p, shift, bits);
            && Links(prev[p % |prev| := head[h]], w, ins, top', end, shift, bits)
            && Links(prev[p % |prev| := head[h]], w, ins + {p}, top', end, shift, bits)
            && Heads(head[h := p], |prev|, w, ins + {p}, top', shift, bits)
            && LinkOk(head[h], h, p, |prev|, w, ins, top', shift, bits)
  {
    hide KeyAt, Latest, Entry;
    var h := KeyAt(w, p, shift, bits);
    var prev' := prev[p % |prev| := head[h]];
    Older(head, prev, w, ins, top, end, shift, bits, top');
    HeadAt(head, |prev|, w, ins, top', shift, bits, h);
    NoneBetween(w, ins, h, shift, bits, p, top');
    forall q | q in ins && q + |prev| > top'
      ensures LinkOk(prev'[q % |prev|], KeyAt(w, q, shift, bits), q, |prev|, w, ins, top', shift, bits) {
      SlotsDiffer(q, p, |prev|);
      LinkAt(prev, w, ins, top', end, shift, bits, q);
    }
    forall q | q in ins + {p} && q + |prev| > top'
      ensures LinkOk(prev'[q % |prev|], KeyAt(w, q, shift, bits), q, |prev|, w, ins + {p}, top', shift, bits) {
      LatestAdded(w, ins, KeyAt(w, q, shift, bits), shift, bits, p, q);
    }
    var head' := head[h := p];
    forall k | 0 <= k < |head'| ensures LinkOk(head'[k], k, top', |prev|, w, ins + {p}, top', shift, bits) {
      HeadAt(head, |prev|, w, ins, top', shift, bits, k);
      LatestAdded(w, ins, k, shift, bits, p, top');
      NoneBetween(w, ins, k, shift, bits, p, top');
    }
  }

  // ---- sliding ----

  /** What sliding by the window size does to a position in a table. */
  function Down(x: int, wsize: int): int { if x >= wsize then x - wsize else 0 }

  function AllDown(table: seq<int>, wsize: int): (r: seq<int>)
    ensures |r| == |table|
    ensures forall k | 0 <= k < |table| :: r[k] == Down(table[k], wsize)
  {
    seq(|table|, k requires 0 <= k < |table| => Down(table[k], wsize))
  }

  function Up(x: int, wsize: int): int { x + wsize }

  /** The strings that remain, of those before top. */
  ghost function SetDown(ins: set<int>, wsize: int, top: int): set<int> {
    set x | 0 <= x < top - wsize && Up(x, wsize) in ins
  }

  lemma DownIn(ins: set<int>, wsize: int, top: int, q: int)
    requires q in SetDown(ins, wsize, top)
    ensures 0 <= q < top - wsize && q + wsize in ins
  {
    assert Up(q, wsize) in ins;
  }

  /** The latest string slides along. */
  lemma {:induction false} LatestDown(w: seq<Byte>, ins: set<int>, w': seq<Byte>, n: int, top: int, end: int, key: nat,
                                      shift: nat, bits: nat, below: int)
    requires Inserted(ins, top, end, |w|) && 0 < n <= below <= top && |w'| == |w|
    requires forall q | q in ins && q >= n :: KeyAt(w', q - n, shift, bits) == KeyAt(w, q, shift, bits)
    ensures Latest(w', SetDown(ins, n, top), key, shift, bits, below - n) ==
            Down(Latest(w, ins, key, shift, bits, below), n)
    decreases below
  {
    hide KeyAt;
    if below > n + 1 {
      LatestDown(w, ins, w', n, top, end, key, shift, bits, below - 1);
      assert Up(below - 1 - n, n) == below - 1;
    }
  }

  lemma Slide(head: seq<int>, prev: seq<int>, w: seq<Byte>, ins: set<int>, top: int, end: int, shift: nat, bits: nat,
              w': seq<Byte>)
    requires Links(prev, w, ins, top, end, shift, bits) && Heads(head, |prev|, w, ins, top, shift, bits)
    requires |prev| <= top <= end <= |w| == |w'| && top <= 2 * |prev| && w'[..end - |prev|] == w[|prev|..end]
    ensures Links(AllDown(prev, |prev|), w', SetDown(ins, |prev|, top), top - |prev|, end - |prev|, shift, bits)
    ensures Heads(AllDown(head, |prev|), |prev|, w', SetDown(ins, |prev|, top), top - |prev|, shift, bits)
  {
    hide Key, Latest;
    var n := |prev|;
    var ins', prev' := SetDown(ins, n, top), AllDown(prev, n);
    forall q | q in ins' ensures 0 <= q < top - n && q + MIN_MATCH <= end - n { DownIn(ins, n, top, q); }
    forall q | q in ins && q >= n ensures KeyAt(w', q - n, shift, bits) == KeyAt(w, q, shift, bits) {
      assert w'[..end - n][q - n] == w[n..end][q - n] && w'[..end - n][q - n + 1] == w[n..end][q - n + 1]
          && w'[..end - n][q - n + 2] == w[n..end][q - n + 2];
    }
    forall q | q in ins' && q + n > top - n
      ensures LinkOk(prev'[q % n], KeyAt(w', q, shift, bits), q, n, w', ins', top - n, shift, bits) {
      DownIn(ins, n, top, q);
      LinkAt(prev, w, ins, top, end, shift, bits, q + n);
      SameSlot(q, n);
      DownOk(prev[q % n], KeyAt(w, q + n, shift, bits), q + n, w, ins, top, end, shift, bits, w', n);
    }
    forall h | 0 <= h < |head| ensures LinkOk(AllDown(head, n)[h], h, top - n, n, w', ins', top - n, shift, bits) {
      HeadAt(head, n, w, ins, top, shift, bits, h);
      DownOk(head[h], h, top, w, ins, top, end, shift, bits, w', n);
    }
  }

  lemma SameSlot(q: int, n: int)
    requires n > 0
    ensures (q + n) % n == q % n
  {
    var a, r := q / n, q % n;
    assert q + n == n * (a + 1) + r by { MulDiff(n, a, -1); }
    RemainderIs(q + n, n, a + 1, r);
  }

  lemma RemainderIs(x: int, d: int, q: int, r: int)
    requires d > 0 && 0 <= r < d && x == d * q + r
    ensures x % d == r
  {
    QuotientIs(x, d, q, r);
  }

  lemma DownOk(x: int, key: nat, below: int, w: seq<Byte>, ins: set<int>, top: int, end: int, shift: nat, bits: nat,
               w': seq<Byte>, n: int)
    requires LinkOk(x, key, below, n, w, ins, top, shift, bits) && Inserted(ins, top, end, |w|)
    requires 0 < n <= below <= top <= end <= |w| == |w'| && top <= 2 * n
    requires forall q | q in ins && q >= n :: KeyAt(w', q - n, shift, bits) == KeyAt(w, q, shift, bits)
    ensures LinkOk(Down(x, n), key, below - n, n, w', SetDown(ins, n, top), top - n, shift, bits)
  {
    hide KeyAt, Latest, SetDown;
    LatestDown(w, ins, w', n, top, end, key, shift, bits, below);
  }

  lemma {:induction false} LatestOfNone(w: seq<Byte>, key: nat, shift: nat, bits: nat, below: int)
    ensures Latest(w, {}, key, shift, bits, below) == 0
    decreases below
  {
    if below > 1 { LatestOfNone(w, key, shift, bits, below - 1); }
  }

  /** An empty dictionary. */
  lemma Nothing(head: seq<int>, prev: seq<int>, w: seq<Byte>, top: int, end: int, shift: nat, bits: nat)
    requires |prev| > 0 && end <= |w| && forall h | 0 <= h < |head| :: head[h] == 0
    ensures Links(prev, w, {}, top, end, shift, bits) && Heads(head, |prev|, w, {}, top, shift, bits)
  {
    hide Latest;
    forall h: nat | h < |head| ensures Latest(w, {}, h, shift, bits, top) == 0 {
      LatestOfNone(w, h, shift, bits, top);
    }
  }
}
