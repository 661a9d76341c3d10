/** What deflate's matching stage produces: literals, and copies of earlier output. */
module LzSymbols {
  import opened Permutations
  import opened InflateSpec

  const MAX_MATCH := 258

  datatype Symbol = Literal(byte: Byte) | Copy(distance: nat, length: nat)

  /** What the symbols stand for, copies byte by byte as inflate makes them. */
  ghost function Expand(symbols: seq<Symbol>): seq<Byte> {
    if symbols == [] then [] else
      var before := Expand(symbols[..|symbols| - 1]);
      match symbols[|symbols| - 1]
      case Literal(b) => before + [b]
      case Copy(d, n) => if 0 < d <= |before| then Repeated(before, d, n) else before
  }

  /** Every copy is 3 to 258 bytes long and reaches back at most maxDist bytes, none of them before the
      beginning. */
  ghost predicate Sound(symbols: seq<Symbol>, maxDist: int) {
    symbols == [] ||
    (Sound(symbols[..|symbols| - 1], maxDist) &&
     match symbols[|symbols| - 1]
     case Literal(_) => true
     case Copy(d, n) => 0 < d <= maxDist && d <= |Expand(symbols[..|symbols| - 1])| && 3 <= n <= MAX_MATCH)
  }

  /** The n bytes from pos on repeat those from dist places before. */
  ghost predicate IsMatch(data: seq<Byte>, pos: int, dist: int, n: int) {
    && 0 < dist <= pos && 0 <= n && pos + n <= |data|
    && forall k | pos <= k < pos + n :: data[k] == data[k - dist]
  }

  lemma {:induction false} MatchRepeats(data: seq<Byte>, pos: nat, dist: nat, n: nat)
    requires IsMatch(data, pos, dist, n)
    ensures 0 < dist <= |data[..pos]| && Repeated(data[..pos], dist, n) == data[..pos + n]
    decreases n
  {
    if n > 0 {
      MatchRepeats(data, pos, dist, n - 1);
      var r := data[..pos + n - 1];
      assert data[pos + n - 1] == data[pos + n - 1 - dist] == r[|r| - dist];
      assert data[..pos + n] == r + [data[pos + n - 1]];
    }
  }

  lemma AddLiteral(symbols: seq<Symbol>, maxDist: int, data: seq<Byte>, pos: nat)
    requires Sound(symbols, maxDist) && pos < |data| && Expand(symbols) == data[..pos]
    ensures Sound(symbols + [Literal(data[pos])], maxDist) && Expand(symbols + [Literal(data[pos])]) == data[..pos + 1]
  {
    var s := symbols + [Literal(data[pos])];
    assert s[..|s| - 1] == symbols;
    assert data[..pos + 1] == data[..pos] + [data[pos]];
  }

  lemma AddCopy(symbols: seq<Symbol>, maxDist: int, data: seq<Byte>, pos: nat, dist: nat, n: nat)
    requires Sound(symbols, maxDist) && pos <= |data| && Expand(symbols) == data[..pos]
    requires IsMatch(data, pos, dist, n) && dist <= maxDist && 3 <= n <= MAX_MATCH
    ensures Sound(symbols + [Copy(dist, n)], maxDist) && Expand(symbols + [Copy(dist, n)]) == data[..pos + n]
  {
    var s := symbols + [Copy(dist, n)];
    assert s[..|s| - 1] == symbols;
    MatchRepeats(data, pos, dist, n);
  }

  /** How inflate stands when it has decoded this symbol. */
  function PhaseFor(symbol: Symbol): Phase {
    match symbol
    case Literal(b) => Lit(b)
    case Copy(d, n) => Match(n, d)
  }

  /** inflate with a window that covers the distances makes of each symbol what it stands for: if the
      symbols before it have been put out, then so is this one, and decoding goes on with the next code. */
  lemma SymbolInflates(symbols: seq<Symbol>, maxDist: int, codes: Codes, wsize: nat, s: Stream)
    requires symbols != [] && Sound(symbols, maxDist) && maxDist <= wsize && WellFormed(codes)
    ensures var front, last := symbols[..|symbols| - 1], symbols[|symbols| - 1];
            Run(codes, wsize, PhaseFor(last), Expand(front), s) == Run(codes, wsize, Len, Expand(symbols), s)
  {
    hide Run, NextCode, Repeated;
    var before := Expand(symbols[..|symbols| - 1]);
    match symbols[|symbols| - 1]
    case Literal(b) => OneStep(codes, wsize, Lit(b), before, s);
    case Copy(d, n) =>
      RunMatch(codes, wsize, n, d, before, s, n);
      OneStep(codes, wsize, Match(0, d), Repeated(before, d, n), s);
  }

  // ---- the buffers of a block ----

  /** The symbols that d_buf and l_buf hold: distance 0 stands for a literal. */
  function Stored(dists: seq<int>, lens: seq<int>): seq<Symbol>
    requires |dists| == |lens|
  {
    seq(|dists|, k requires 0 <= k < |dists| =>
      if dists[k] > 0 && lens[k] >= 0 then Copy(dists[k], lens[k] + 3)
      else Literal(if 0 <= lens[k] < 256 then lens[k] else 0))
  }

  lemma StoredMore(dists: seq<int>, lens: seq<int>, d: int, l: int)
    requires |dists| == |lens|
    ensures Stored(dists + [d], lens + [l]) ==
            Stored(dists, lens) + [if d > 0 && l >= 0 then Copy(d, l + 3) else Literal(if 0 <= l < 256 then l else 0)]
  {
  }
}
