/** Run-length stage 1: a run of 4 to 255 equal bytes is stored as four of them and a count. The decoder's
    reading of any block, and why it undoes what the encoder stores. */
module RunLength {
  import opened Permutations

  function Rep(c: Byte, k: nat): (r: seq<Byte>)
    ensures |r| == k && forall i | 0 <= i < k :: r[i] == c
  {
    seq(k, _ => c)
  }

  // ---- decoding: the n bytes of a block are followed by whatever the decoder fetches beyond them ----

  /** How many of at most four bytes of the run at p are equal. */
  ghost function Take(feed: seq<Byte>, n: nat, p: nat): (k: nat)
    requires p < n <= |feed|
    ensures 1 <= k <= 4 && p + k <= n
    ensures forall i | p <= i < p + k :: feed[i] == feed[p]
  {
    if p + 1 >= n || feed[p + 1] != feed[p] then 1
    else if p + 2 >= n || feed[p + 2] != feed[p] then 2
    else if p + 3 >= n || feed[p + 3] != feed[p] then 3
    else 4
  }

  lemma TakeIs(feed: seq<Byte>, n: nat, p: nat, k: nat)
    requires p + k <= n <= |feed| && 1 <= k <= 4
    requires forall i | p <= i < p + k :: feed[i] == feed[p]
    requires k == 4 || p + k == n || feed[p + k] != feed[p]
    ensures Take(feed, n, p) == k
  {
  }

  /** Where the run after p starts: behind the count, if there is one. */
  ghost function Next(feed: seq<Byte>, n: nat, p: nat): (q: nat)
    requires p < n <= |feed|
    ensures p < q <= n + 1
  {
    if Take(feed, n, p) < 4 then p + Take(feed, n, p) else p + 5
  }

  /** The output of the run at p. */
  ghost function Emit(feed: seq<Byte>, n: nat, p: nat): seq<Byte>
    requires p < n < |feed|
  {
    Rep(feed[p], if Take(feed, n, p) < 4 then Take(feed, n, p) else (feed[p + 4] as int) + 4)
  }

  /** The output of everything from p on. */
  ghost function Expanded(feed: seq<Byte>, n: nat, p: nat): seq<Byte>
    requires n < |feed|
    decreases n - p
  {
    if p >= n then [] else Emit(feed, n, p) + Expanded(feed, n, Next(feed, n, p))
  }

  /** Where reading stops: n, or n + 1 when the count of the last run is missing. */
  ghost function Lands(feed: seq<Byte>, n: nat, p: nat): (q: nat)
    requires n < |feed| && p <= n + 1
    ensures n <= q <= n + 1
    decreases n - p
  {
    if p >= n then p else Lands(feed, n, Next(feed, n, p))
  }

  // ---- encoding ----

  /** The flags of exactly the bytes that occur in a block are set. */
  ghost predicate InUseOf(used: seq<bool>, block: seq<Byte>) {
    |used| == 256 && forall c | 0 <= c < 256 :: used[c] <==> c in block
  }

  lemma AllMarked(used: seq<bool>, block: seq<Byte>)
    requires InUseOf(used, block)
    ensures |used| == 256 && forall i | 0 <= i < |block| :: used[block[i]]
  {
  }

  /** A run of len bytes ch. */
  datatype Run = Run(ch: Byte, len: nat)

  /** What one run occupies in the block. */
  function Pair(r: Run): (s: seq<Byte>)
    requires 1 <= r.len <= 255
  {
    if r.len < 4 then Rep(r.ch, r.len) else Rep(r.ch, 4) + [r.len - 4]
  }

  predicate GoodRuns(runs: seq<Run>) {
    forall i | 0 <= i < |runs| :: 1 <= runs[i].len <= 255
  }

  /** Neighbouring runs of one byte occur only behind a full count. */
  predicate Separated(runs: seq<Run>) {
    forall i | 0 <= i < |runs| - 1 :: runs[i].ch != runs[i + 1].ch || runs[i].len == 255
  }

  /** The block the runs occupy... */
  function Stored(runs: seq<Run>): seq<Byte>
    requires GoodRuns(runs)
  {
    if runs == [] then [] else Stored(runs[..|runs| - 1]) + Pair(runs[|runs| - 1])
  }

  /** ... and the input they stand for. */
  function Spelled(runs: seq<Run>): seq<Byte> {
    if runs == [] then [] else Spelled(runs[..|runs| - 1]) + Rep(runs[|runs| - 1].ch, runs[|runs| - 1].len)
  }

  lemma StoredAppend(runs: seq<Run>, r: Run)
    requires GoodRuns(runs) && 1 <= r.len <= 255
    ensures GoodRuns(runs + [r])
    ensures Stored(runs + [r]) == Stored(runs) + Pair(r)
    ensures Spelled(runs + [r]) == Spelled(runs) + Rep(r.ch, r.len)
  {
    assert (runs + [r])[..|runs|] == runs;
  }

  lemma StoredSplit(runs: seq<Run>, i: nat)
    requires GoodRuns(runs) && i < |runs|
    ensures GoodRuns(runs[..i]) && GoodRuns(runs[..i + 1])
    ensures Stored(runs[..i + 1]) == Stored(runs[..i]) + Pair(runs[i])
    ensures Spelled(runs[..i + 1]) == Spelled(runs[..i]) + Rep(runs[i].ch, runs[i].len)
  {
    assert runs[..i + 1][..i] == runs[..i];
  }

  lemma {:induction false} StoredPrefix(runs: seq<Run>, i: nat)
    requires GoodRuns(runs) && i <= |runs|
    ensures GoodRuns(runs[..i]) && |Stored(runs[..i])| <= |Stored(runs)|
    ensures Stored(runs)[..|Stored(runs[..i])|] == Stored(runs[..i])
    decreases |runs| - i
  {
    if i == |runs| {
      assert runs[..i] == runs;
    } else {
      StoredPrefix(runs, i + 1);
      StoredSplit(runs, i);
      var s, t := Stored(runs[..i]), Stored(runs[..i + 1]);
      assert Stored(runs)[..|s|] == Stored(runs)[..|t|][..|s|];
    }
  }

  lemma StoredAt(feed: seq<Byte>, runs: seq<Run>, i: nat)
    requires GoodRuns(runs) && i < |runs|
    requires |Stored(runs)| <= |feed| && feed[..|Stored(runs)|] == Stored(runs)
    ensures GoodRuns(runs[..i]) && GoodRuns(runs[..i + 1])
    ensures |Stored(runs[..i + 1])| == |Stored(runs[..i])| + |Pair(runs[i])| <= |Stored(runs)|
    ensures forall k | 0 <= k < |Pair(runs[i])| :: feed[|Stored(runs[..i])| + k] == Pair(runs[i])[k]
  {
    hide Stored, Pair, GoodRuns;
    GoodRun(runs, i);
    StoredPrefix(runs, i);
    StoredPrefix(runs, i + 1);
    StoredSplit(runs, i);
    var n, p, q, r := |Stored(runs)|, |Stored(runs[..i])|, |Stored(runs[..i + 1])|, runs[i];
    forall k | 0 <= k < |Pair(r)| ensures feed[p + k] == Pair(r)[k] {
      assert feed[p + k] == feed[..n][p + k] == Stored(runs)[..q][p + k];
    }
  }

  lemma GoodRun(runs: seq<Run>, i: nat)
    requires GoodRuns(runs) && i < |runs|
    ensures 1 <= runs[i].len <= 255
  {
  }

  /** The decoder reads run i where the encoder stored it. */
  lemma RunRead(feed: seq<Byte>, runs: seq<Run>, i: nat)
    requires GoodRuns(runs) && Separated(runs) && i < |runs|
    requires |Stored(runs)| < |feed| && feed[..|Stored(runs)|] == Stored(runs)
    ensures GoodRuns(runs[..i]) && GoodRuns(runs[..i + 1])
    ensures var n, p := |Stored(runs)|, |Stored(runs[..i])|;
      && p < n && Next(feed, n, p) == |Stored(runs[..i + 1])|
      && Emit(feed, n, p) == Rep(runs[i].ch, runs[i].len)
  {
    hide Stored, Take, Next, Emit, Rep;
    StoredAt(feed, runs, i);
    var n, p, q, r := |Stored(runs)|, |Stored(runs[..i])|, |Stored(runs[..i + 1])|, runs[i];
    if i + 1 == |runs| {
      assert runs[..i + 1] == runs;
    } else {
      StoredAt(feed, runs, i + 1);
      assert feed[q + 0] == Pair(runs[i + 1])[0] == runs[i + 1].ch;
    }
    ReadPair(feed, n, p, r);
  }

  lemma ReadPair(feed: seq<Byte>, n: nat, p: nat, r: Run)
    requires 1 <= r.len <= 255 && p + |Pair(r)| <= n < |feed|
    requires forall k | 0 <= k < |Pair(r)| :: feed[p + k] == Pair(r)[k]
    requires r.len >= 4 || p + r.len == n || feed[p + r.len] != r.ch
    ensures Next(feed, n, p) == p + |Pair(r)|
    ensures Emit(feed, n, p) == Rep(r.ch, r.len)
  {
    hide Take;
    var k := if r.len < 4 then r.len else 4;
    assert Pair(r)[0] == r.ch == feed[p];
    forall i | p <= i < p + k ensures feed[i] == r.ch {
      assert feed[p + (i - p)] == Pair(r)[i - p];
    }
    TakeIs(feed, n, p, k);
    if r.len >= 4 { assert feed[p + 4] == Pair(r)[4]; }
  }

  lemma {:induction false} RunsRead(feed: seq<Byte>, runs: seq<Run>, i: nat)
    requires GoodRuns(runs) && Separated(runs) && i <= |runs|
    requires |Stored(runs)| < |feed| && feed[..|Stored(runs)|] == Stored(runs)
    ensures GoodRuns(runs[..i]) && |Stored(runs[..i])| <= |Stored(runs)|
    ensures Spelled(runs[..i]) + Expanded(feed, |Stored(runs)|, |Stored(runs[..i])|) == Spelled(runs)
    ensures Lands(feed, |Stored(runs)|, |Stored(runs[..i])|) == |Stored(runs)|
    decreases |runs| - i
  {
    hide Stored, Spelled, Next, Emit;
    StoredPrefix(runs, i);
    if i == |runs| {
      assert runs[..i] == runs;
    } else {
      RunRead(feed, runs, i);
      RunsRead(feed, runs, i + 1);
      StoredSplit(runs, i);
    }
  }

  /** Stage 1 is undone: whatever follows the block, reading the stored runs gives the input they stand for,
      and ends exactly at the end of the block. */
  lemma RunsReturn(feed: seq<Byte>, runs: seq<Run>)
    requires GoodRuns(runs) && Separated(runs)
    requires |Stored(runs)| < |feed| && feed[..|Stored(runs)|] == Stored(runs)
    ensures Expanded(feed, |Stored(runs)|, 0) == Spelled(runs)
    ensures Lands(feed, |Stored(runs)|, 0) == |Stored(runs)|
  {
    RunsRead(feed, runs, 0);
    assert runs[..0] == [];
    assert Spelled([]) + Expanded(feed, |Stored(runs)|, 0) == Expanded(feed, |Stored(runs)|, 0);
  }
}
