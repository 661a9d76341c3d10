/** Move-to-front lists, and the symbols of the second run-length stage: zeros are counted in bijective base
    two with the digits RUNA and RUNB, every other index is written one up, and EOB ends the block. */
module MoveToFront {
  import opened Permutations
  import opened RunLength

  const RUNA := 0
  const RUNB := 1

  /** The list with its entry j moved to the front. */
  function ToFront<T>(list: seq<T>, j: nat): (r: seq<T>)
    requires j < |list|
    ensures |r| == |list|
    ensures r[0] == list[j]
    ensures forall k | 1 <= k <= j :: r[k] == list[k - 1]
    ensures forall k | j < k < |list| :: r[k] == list[k]
  {
    [list[j]] + list[..j] + list[j + 1..]
  }

  // ---- what a sequence of symbols stands for ----

  /** The decoder's state between symbols: the list, the output so far, and a run of zeros in progress with
      the weight of its next digit. */
  datatype Decoding = Decoding(list: seq<Byte>, out: seq<Byte>, run: nat, weight: nat)

  /** The output including the run in progress, which repeats the front of the list. */
  ghost function Output(d: Decoding): seq<Byte>
    requires d.list != []
  {
    d.out + Rep(d.list[0], d.run)
  }

  ghost predicate IsSymbol(d: Decoding, sym: int) {
    d.list != [] && 0 <= sym <= |d.list|
  }

  ghost function Step(d: Decoding, sym: int): (r: Decoding)
    requires IsSymbol(d, sym)
    ensures |r.list| == |d.list|
  {
    if sym == RUNA then Decoding(d.list, d.out, d.run + d.weight, 2 * d.weight)
    else if sym == RUNB then Decoding(d.list, d.out, d.run + 2 * d.weight, 2 * d.weight)
    else Decoding(ToFront(d.list, sym - 1), Output(d) + [d.list[sym - 1]], 0, 1)
  }

  ghost predicate Symbols(list: seq<Byte>, syms: seq<int>) {
    list != [] && forall i | 0 <= i < |syms| :: 0 <= syms[i] <= |list|
  }

  /** The state after a sequence of symbols. */
  ghost function After(list: seq<Byte>, syms: seq<int>): (d: Decoding)
    requires Symbols(list, syms)
    ensures |d.list| == |list|
  {
    if syms == [] then Decoding(list, [], 0, 1) else Step(After(list, syms[..|syms| - 1]), syms[|syms| - 1])
  }

  lemma AfterAppend(list: seq<Byte>, syms: seq<int>, sym: int)
    requires Symbols(list, syms) && 0 <= sym <= |list|
    ensures Symbols(list, syms + [sym])
    ensures After(list, syms + [sym]) == Step(After(list, syms), sym)
  {
    assert (syms + [sym])[..|syms|] == syms;
  }

  /** A run of weight w in progress counts at least w - 1, so a run that fits in a block never makes the
      weight large. */
  lemma {:induction false} WeightBounded(list: seq<Byte>, syms: seq<int>)
    requires Symbols(list, syms)
    ensures 1 <= After(list, syms).weight <= After(list, syms).run + 1
  {
    if syms != [] { WeightBounded(list, syms[..|syms| - 1]); }
  }

  lemma StepGrows(d: Decoding, sym: int)
    requires IsSymbol(d, sym) && d.weight >= 1
    ensures |Output(d)| + 1 <= |Output(Step(d, sym))|
  {
  }

  lemma AfterSplit(list: seq<Byte>, syms: seq<int>, k: nat)
    requires Symbols(list, syms) && k < |syms|
    ensures Symbols(list, syms[..k]) && Symbols(list, syms[..k + 1])
    ensures IsSymbol(After(list, syms[..k]), syms[k])
    ensures After(list, syms[..k + 1]) == Step(After(list, syms[..k]), syms[k])
  {
    hide Step;
    assert syms[..k + 1][..k] == syms[..k];
  }

  /** Every symbol adds at least one byte. */
  lemma {:induction false} OutputGrows(list: seq<Byte>, syms: seq<int>, k: nat)
    requires Symbols(list, syms) && k <= |syms|
    ensures Symbols(list, syms[..k])
    ensures |Output(After(list, syms[..k]))| + (|syms| - k) <= |Output(After(list, syms))|
    decreases |syms| - k
  {
    hide Output, Step, After, IsSymbol;
    if k == |syms| {
      assert syms[..k] == syms;
    } else {
      OutputGrows(list, syms, k + 1);
      AfterSplit(list, syms, k);
      WeightBounded(list, syms[..k]);
      StepGrows(After(list, syms[..k]), syms[k]);
    }
  }

  /** Only the front of the list that the symbols can reach matters. */
  lemma {:induction false} PrefixAgrees(list: seq<Byte>, m: nat, syms: seq<int>)
    requires 0 < m <= |list| && Symbols(list[..m], syms)
    ensures Symbols(list, syms)
    ensures var d, e := After(list, syms), After(list[..m], syms);
      d.list[..m] == e.list && d.out == e.out && d.run == e.run && d.weight == e.weight
  {
    if syms != [] {
      var front, last := syms[..|syms| - 1], syms[|syms| - 1];
      PrefixAgrees(list, m, front);
      var d, e := After(list, front), After(list[..m], front);
      if last > RUNB {
        assert ToFront(d.list, last - 1)[..m] == ToFront(e.list, last - 1);
      }
    }
  }
}
