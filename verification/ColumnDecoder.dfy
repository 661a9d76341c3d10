/** From coded symbols back to the last column: run digits are summed and expanded, indices are looked up in
    the segmented move-to-front list, and the bytes are counted on the way. */
module ColumnDecoder {
  import opened Permutations
  import opened Huffman
  import opened BitStream
  import opened BlockReader
  import opened SymbolReader
  import opened RunLength
  import opened MoveToFront
  import opened MtfSegments
  import MtfEncoder

  const RUN_LIMIT := 2 * 1024 * 1024

  /** The bytes behind a sequence of numbers. */
  ghost function Mapped(unseq: seq<Byte>, nums: seq<Byte>): (r: seq<Byte>)
    requires |unseq| == 256
    ensures |r| == |nums| && forall i | 0 <= i < |nums| :: r[i] == unseq[nums[i]]
  {
    seq(|nums|, i requires 0 <= i < |nums| => unseq[nums[i]])
  }

  lemma MappedAppend(unseq: seq<Byte>, nums: seq<Byte>, c: Byte)
    requires |unseq| == 256
    ensures Mapped(unseq, nums + [c]) == Mapped(unseq, nums) + [unseq[c]]
  {
  }

  /** What the symbols so far have produced: nblock bytes of the column, counted, and the current list. */
  ghost predicate Produced(syms: seq<int>, column: seq<int>, counts: seq<int>, mtfa: seq<Byte>, base: seq<int>,
                           unseq: seq<Byte>) {
    && Symbols(Identity(), syms) && |unseq| == 256
    && Represents(mtfa, base, After(Identity(), syms).list) && base[0] > 0
    && column == Mapped(unseq, Output(After(Identity(), syms)))
    && Tallied(counts, column)
  }

  ghost predicate Tallied(counts: seq<int>, column: seq<int>) {
    |counts| == 256 && forall c | 0 <= c < 256 :: counts[c] == multiset(column)[c]
  }

  lemma TalliedAppend(counts: seq<int>, column: seq<int>, c: int)
    requires |counts| == 256 && Tallied(counts, column) && 0 <= c < 256
    ensures Tallied(counts[c := counts[c] + 1], column + [c])
  {
  }

  lemma {:induction false} TalliedRun(counts: seq<int>, column: seq<int>, c: Byte, k: nat)
    requires |counts| == 256 && Tallied(counts, column)
    ensures Tallied(counts[c := counts[c] + k], column + Rep(c, k))
    decreases k
  {
    hide Tallied;
    TalliedSize(counts, column);
    if k == 0 {
      assert column + Rep(c, 0) == column;
      assert counts[c := counts[c] + 0] == counts;
    } else {
      TalliedRun(counts, column, c, k - 1);
      var counts', column' := counts[c := counts[c] + (k - 1)], column + Rep(c, k - 1);
      TalliedAppend(counts', column', c);
      assert column + Rep(c, k) == column' + [c];
      assert counts'[c := counts'[c] + 1] == counts[c := counts[c] + k];
    }
  }

  lemma TalliedSize(counts: seq<int>, column: seq<int>)
    requires Tallied(counts, column)
    ensures |counts| == 256
  {
  }

  /** The symbols that were sent, as far as they concern this stage. */
  ghost predicate Sent(mtfv: seq<int>, nums: seq<Byte>, nInUse: int, room: int) {
    MtfEncoder.IsMtfOf(mtfv, nums, nInUse) && |nums| <= room
  }

  lemma SentSymbol(mtfv: seq<int>, nums: seq<Byte>, nInUse: int, room: int, i: nat)
    requires Sent(mtfv, nums, nInUse, room) && i < |mtfv|
    ensures mtfv[i] == nInUse + 1 <==> i == |mtfv| - 1
    ensures 0 < nInUse <= 256 && 0 <= mtfv[i] <= nInUse + 1
    ensures Symbols(Identity(), mtfv[..i])
    ensures |Output(After(Identity(), mtfv[..i]))| + (|mtfv| - 1 - i) <= |nums| <= room
    ensures i == |mtfv| - 1 ==> Output(After(Identity(), mtfv[..i])) == nums
  {
    hide After, Output;
    var all := mtfv[..|mtfv| - 1];
    PrefixAgrees(Identity(), nInUse, all);
    OutputAgrees(nInUse, all);
    OutputGrows(Identity(), all, i);
    assert all[..i] == mtfv[..i];
    if i < |mtfv| - 1 { assert all[i] == mtfv[i]; }
  }

  lemma OutputAgrees(m: nat, syms: seq<int>)
    requires 0 < m <= 256 && Symbols(Identity()[..m], syms)
    ensures Symbols(Identity(), syms)
    ensures Output(After(Identity(), syms)) == Output(After(Identity()[..m], syms))
  {
    hide After;
    PrefixAgrees(Identity(), m, syms);
    var d, e := After(Identity(), syms), After(Identity()[..m], syms);
    assert d.list[0] == d.list[..m][0] == e.list[0];
  }

  /** The loop state with respect to what was sent: all symbols before nextSym have been consumed. */
  ghost predicate Following(mtfv: seq<int>, nums: seq<Byte>, nInUse: int, room: int, syms: seq<int>, nextSym: int) {
    Sent(mtfv, nums, nInUse, room) && |syms| < |mtfv| && syms == mtfv[..|syms|] && nextSym == mtfv[|syms|]
  }

  lemma FollowingFacts(mtfv: seq<int>, nums: seq<Byte>, nInUse: int, room: int, syms: seq<int>, nextSym: int)
    requires Following(mtfv, nums, nInUse, room, syms, nextSym)
    ensures Symbols(Identity(), syms) && 0 < nInUse <= 256
    ensures nextSym == nInUse + 1 ==> |syms| + 1 == |mtfv| && Output(After(Identity(), syms)) == nums
    ensures nextSym != nInUse + 1 ==> |Output(After(Identity(), syms))| < |nums| <= room && |syms| + 1 < |mtfv|
    ensures |Output(After(Identity(), syms))| <= |nums| <= room
  {
    hide After, Output, Sent;
    SentSymbol(mtfv, nums, nInUse, room, |syms|);
  }

  lemma FollowingNext(mtfv: seq<int>, nums: seq<Byte>, nInUse: int, room: int, syms: seq<int>, nextSym: int,
                      newSym: int)
    requires Following(mtfv, nums, nInUse, room, syms, nextSym) && |syms| + 1 < |mtfv| && newSym == mtfv[|syms| + 1]
    ensures Following(mtfv, nums, nInUse, room, syms + [nextSym], newSym)
  {
    hide Sent;
  }

  /** The weight of a digit of a run that was sent is far below the limit the decoder imposes. */
  lemma RunNeverRejected(mtfv: seq<int>, nums: seq<Byte>, nInUse: int, room: int, syms: seq<int>, nextSym: int)
    requires Following(mtfv, nums, nInUse, room, syms, nextSym) && room <= 900000
    ensures Symbols(Identity(), syms) && After(Identity(), syms).weight < RUN_LIMIT
  {
    hide After;
    FollowingFacts(mtfv, nums, nInUse, room, syms, nextSym);
    WeightBounded(Identity(), syms);
  }

  /** A digit of a run leaves the list and the finished output alone. */
  lemma DigitKeeps(syms: seq<int>, sym: int)
    requires Symbols(Identity(), syms) && (sym == RUNA || sym == RUNB)
    ensures Symbols(Identity(), syms + [sym])
    ensures var d, e := After(Identity(), syms), After(Identity(), syms + [sym]);
      && e.list == d.list && e.out == d.out && e.weight == 2 * d.weight
      && e.run == d.run + (if sym == RUNA then 1 else 2) * d.weight
  {
    AfterAppend(Identity(), syms, sym);
  }

  lemma RunProduced(syms0: seq<int>, syms: seq<int>, column: seq<int>, counts: seq<int>, mtfa: seq<Byte>,
                    base: seq<int>, unseq: seq<Byte>, uc: Byte, k: nat)
    requires Produced(syms0, column, counts, mtfa, base, unseq) && Symbols(Identity(), syms)
    requires After(Identity(), syms0).run == 0
    requires After(Identity(), syms).list == After(Identity(), syms0).list
    requires After(Identity(), syms).out == After(Identity(), syms0).out && After(Identity(), syms).run == k
    requires uc == unseq[After(Identity(), syms0).list[0]]
    ensures Produced(syms, column + Rep(uc, k), counts[uc := counts[uc] + k], mtfa, base, unseq)
  {
    hide After, Represents, Tallied;
    ProducedTally(syms0, column, counts, mtfa, base, unseq);
    TalliedRun(counts, column, uc, k);
    var d, e := After(Identity(), syms0), After(Identity(), syms);
    assert Output(d) == d.out + [];
    assert Mapped(unseq, Output(e)) == Mapped(unseq, Output(d)) + Rep(uc, k);
  }

  lemma ProducedTally(syms: seq<int>, column: seq<int>, counts: seq<int>, mtfa: seq<Byte>, base: seq<int>,
                      unseq: seq<Byte>)
    requires Produced(syms, column, counts, mtfa, base, unseq)
    ensures Tallied(counts, column) && |counts| == 256
  {
  }

  lemma IndexProduced(syms: seq<int>, sym: int, column: seq<int>, counts: seq<int>, mtfa: seq<Byte>, base: seq<int>,
                      unseq: seq<Byte>, mtfa': seq<Byte>, base': seq<int>, uc: Byte)
    requires Produced(syms, column, counts, mtfa, base, unseq) && RUNB < sym <= 256
    requires uc == After(Identity(), syms).list[sym - 1]
    requires Represents(mtfa', base', ToFront(After(Identity(), syms).list, sym - 1)) && base'[0] > 0
    ensures Produced(syms + [sym], column + [unseq[uc] as int], counts[unseq[uc] := counts[unseq[uc]] + 1], mtfa',
                     base', unseq)
    ensures After(Identity(), syms + [sym]).run == 0 && After(Identity(), syms + [sym]).weight == 1
  {
    hide Represents, Tallied;
    ProducedTally(syms, column, counts, mtfa, base, unseq);
    AfterAppend(Identity(), syms, sym);
    TalliedAppend(counts, column, unseq[uc]);
    var d, e := After(Identity(), syms), After(Identity(), syms + [sym]);
    assert Output(e) == e.out + [] == Output(d) + [uc];
    MappedAppend(unseq, Output(d), uc);
  }

  lemma NothingProduced(counts: seq<int>, mtfa: seq<Byte>, base: seq<int>, unseq: seq<Byte>)
    requires |counts| == 256 && (forall c | 0 <= c < 256 :: counts[c] == 0) && |unseq| == 256
    requires Represents(mtfa, base, Identity()) && base[0] > 0
    ensures Produced([], [], counts, mtfa, base, unseq)
    ensures After(Identity(), []).run == 0 && After(Identity(), []).weight == 1
  {
    hide Represents;
    assert Output(After(Identity(), [])) == [];
  }

  // ---- the loop ----

  /** Everything read so far is what was sent, nextSym included. */
  ghost predicate OnTrack(src: SymbolSource, nums: seq<Byte>, nInUse: int, room: int, syms: seq<int>, nextSym: int)
    reads src, src.r, src.selector
    requires src.Valid()
  {
    Following(src.mtfv, nums, nInUse, room, syms, nextSym) && src.At(|syms| + 1)
  }

  /** Reads the symbol after nextSym. */
  method Follow(src: SymbolSource, ghost nums: seq<Byte>, ghost nInUse: int, ghost room: int, ghost syms: seq<int>,
                ghost nextSym: int)
    returns (res: Outcome)
    requires src.Valid() && src.alphaSize == nInUse + 2
    modifies src, src.r
    ensures src.Valid()
    ensures res.Symbol? ==> 0 <= res.sym <= nInUse + 1 && |src.r.Unread()| < |old(src.r.Unread())|
    ensures nextSym != nInUse + 1 && old(OnTrack(src, nums, nInUse, room, syms, nextSym)) ==>
              res.Symbol? && OnTrack(src, nums, nInUse, room, syms + [nextSym], res.sym)
  {
    hide Following, AtSymbol, TablesFor;
    ghost var good := nextSym != nInUse + 1 && OnTrack(src, nums, nInUse, room, syms, nextSym);
    if good { FollowingFacts(src.mtfv, nums, nInUse, room, syms, nextSym); }
    res := src.Next(|syms| + 1);
    if good { FollowingNext(src.mtfv, nums, nInUse, room, syms, nextSym, res.sym); }
  }

  /** Writes a run into the column, unless it does not fit. */
  method AppendRun(target: array<int>, nblock0: int, uc: Byte, es0: int, nblockMAX: int) returns (ok: bool, nblock: int)
    requires 0 <= nblock0 <= nblockMAX <= target.Length && es0 >= 0
    modifies target
    ensures ok <==> nblock0 + es0 <= nblockMAX
    ensures ok ==> nblock == nblock0 + es0 && target[..nblock] == old(target[..nblock0]) + Rep(uc, es0)
    ensures forall k | nblockMAX <= k < target.Length :: target[k] == old(target[k])
  {
    nblock := nblock0;
    var es := es0;
    while es > 0
      invariant 0 <= es <= es0 && nblock == nblock0 + (es0 - es) <= nblockMAX
      invariant forall k | 0 <= k < nblock0 :: target[k] == old(target[k])
      invariant forall k | nblock0 <= k < nblock :: target[k] == uc
      invariant forall k | nblockMAX <= k < target.Length :: target[k] == old(target[k])
    {
      if nblock >= nblockMAX { return false, nblock; }
      target[nblock] := uc;
      nblock := nblock + 1;
      es := es - 1;
    }
    ok := true;
  }

  /** Sums the digits of a run; nextSym is then the symbol after it. */
  method SumRun(src: SymbolSource, nextSym0: int, nInUse: int, ghost nums: seq<Byte>, ghost room: int,
                ghost syms0: seq<int>)
    returns (status: Status, es: int, nextSym: int, ghost syms: seq<int>)
    requires src.Valid() && src.alphaSize == nInUse + 2 && 0 < nInUse <= 256 && room <= 900000
    requires nextSym0 == RUNA || nextSym0 == RUNB
    requires Symbols(Identity(), syms0) && After(Identity(), syms0).run == 0 && After(Identity(), syms0).weight == 1
    modifies src, src.r
    ensures src.Valid() && !status.Overrun?
    ensures status.Good? ==>
              && RUNB < nextSym <= nInUse + 1 && es >= 0 && |src.r.Unread()| < |old(src.r.Unread())|
              && Symbols(Identity(), syms)
              && After(Identity(), syms).list == After(Identity(), syms0).list
              && After(Identity(), syms).out == After(Identity(), syms0).out && After(Identity(), syms).run == es
    ensures old(OnTrack(src, nums, nInUse, room, syms0, nextSym0)) ==>
              status.Good? && OnTrack(src, nums, nInUse, room, syms, nextSym)
  {
    hide Following, After, Represents, TablesFor, AtSymbol;
    ghost var good := OnTrack(src, nums, nInUse, room, syms0, nextSym0);
    nextSym, syms := nextSym0, syms0;
    es := -1;
    var n := 1;
    while nextSym == RUNA || nextSym == RUNB
      invariant src.Valid() && 0 <= nextSym <= nInUse + 1 && Symbols(Identity(), syms)
      invariant After(Identity(), syms).list == After(Identity(), syms0).list
      invariant After(Identity(), syms).out == After(Identity(), syms0).out
      invariant es >= -1 && After(Identity(), syms).run == es + 1 && After(Identity(), syms).weight == n >= 1
      invariant good ==> OnTrack(src, nums, nInUse, room, syms, nextSym)
      invariant |src.r.Unread()| <= |old(src.r.Unread())|
      invariant nextSym > RUNB ==> |src.r.Unread()| < |old(src.r.Unread())|
      decreases |src.r.Unread()|
    {
      if good { RunNeverRejected(src.mtfv, nums, nInUse, room, syms, nextSym); }
      if n >= RUN_LIMIT { return Bad, es, nextSym, syms; }
      DigitKeeps(syms, nextSym);
      if nextSym == RUNA { es := es + n; } else { es := es + 2 * n; }
      n := n * 2;
      var res := Follow(src, nums, nInUse, room, syms, nextSym);
      syms := syms + [nextSym];
      match res {
        case Symbol(sym) => nextSym := sym;
        case DataError => return Bad, es, nextSym, syms;
        case NeedMore => return Hungry, es, nextSym, syms;
      }
    }
    es := es + 1;
    status := Good;
  }

  /** The decoder's arrays agree with the symbols consumed so far. */
  ghost predicate Holding(syms: seq<int>, target: array<int>, nblock: int, unzftab: array<int>, mtfa: array<Byte>,
                          mtfbase: array<int>, unseq: seq<Byte>)
    reads target, unzftab, mtfa, mtfbase
  {
    && 0 <= nblock <= target.Length && mtfbase.Length == SEGMENTS
    && Produced(syms, target[..nblock], unzftab[..], mtfa[..], mtfbase[..], unseq)
  }

  lemma HoldingFacts(syms: seq<int>, target: array<int>, nblock: int, unzftab: array<int>, mtfa: array<Byte>,
                     mtfbase: array<int>, unseq: seq<Byte>)
    requires Holding(syms, target, nblock, unzftab, mtfa, mtfbase, unseq)
    ensures Symbols(Identity(), syms) && |unseq| == 256 && mtfa.Length == MTFA_SIZE && mtfbase.Length == SEGMENTS
    ensures Represents(mtfa[..], mtfbase[..], After(Identity(), syms).list) && mtfbase[0] > 0
    ensures unzftab.Length == 256 && target[..nblock] == Mapped(unseq, Output(After(Identity(), syms)))
    ensures nblock == |Output(After(Identity(), syms))|
    ensures Tallied(unzftab[..], target[..nblock])
  {
    hide After, Output, InPlace, Cell;
    assert |mtfa[..]| == mtfa.Length;
    assert |target[..nblock]| == nblock && mtfbase[..][0] == mtfbase[0];
  }

  lemma HoldingIs(syms: seq<int>, target: array<int>, nblock: int, unzftab: array<int>, mtfa: array<Byte>,
                  mtfbase: array<int>, unseq: seq<Byte>)
    requires Holding(syms, target, nblock, unzftab, mtfa, mtfbase, unseq)
    ensures 0 <= nblock <= target.Length && Produced(syms, target[..nblock], unzftab[..], mtfa[..], mtfbase[..], unseq)
  {
    hide Produced;
  }

  /** A run at the front of the list. */
  method TakeRun(src: SymbolSource, nextSym0: int, nInUse: int, seqToUnseq: array<Byte>, target: array<int>,
                 nblock0: int, unzftab: array<int>, mtfa: array<Byte>, mtfbase: array<int>, nblockMAX: int,
                 ghost nums: seq<Byte>, ghost syms0: seq<int>)
    returns (status: Status, nextSym: int, nblock: int, ghost syms: seq<int>)
    requires src.Valid() && src.alphaSize == nInUse + 2 && 0 < nInUse <= 256
    requires nextSym0 == RUNA || nextSym0 == RUNB
    requires target != unzftab && target != mtfbase && target != src.selector && unzftab != mtfbase
             && unzftab != src.selector
    requires mtfa as object != target && mtfa as object != unzftab && seqToUnseq as object != target
             && seqToUnseq as object != unzftab
    requires seqToUnseq.Length == 256 && 0 <= nblock0 <= nblockMAX <= target.Length && nblockMAX <= 900000
    requires Holding(syms0, target, nblock0, unzftab, mtfa, mtfbase, seqToUnseq[..])
    requires After(Identity(), syms0).run == 0 && After(Identity(), syms0).weight == 1
    modifies src, src.r, target, unzftab
    ensures src.Valid() && !status.Overrun?
    ensures status.Good? ==>
              && RUNB < nextSym <= nInUse + 1 && |src.r.Unread()| < |old(src.r.Unread())|
              && nblock <= nblockMAX && Holding(syms, target, nblock, unzftab, mtfa, mtfbase, seqToUnseq[..])
    ensures old(OnTrack(src, nums, nInUse, nblockMAX, syms0, nextSym0)) ==>
              status.Good? && OnTrack(src, nums, nInUse, nblockMAX, syms, nextSym)
  {
    hide Following, After, Output, Represents, InPlace, TablesFor, AtSymbol, Produced, Tallied, Holding;
    HoldingFacts(syms0, target, nblock0, unzftab, mtfa, mtfbase, seqToUnseq[..]);
    ghost var good := OnTrack(src, nums, nInUse, nblockMAX, syms0, nextSym0);
    nblock := nblock0;
    var es;
    status, es, nextSym, syms := SumRun(src, nextSym0, nInUse, nums, nblockMAX, syms0);
    if !status.Good? { return; }
    EntryCell(mtfa[..], mtfbase[..], After(Identity(), syms0).list, 0);
    var uc := seqToUnseq[mtfa[mtfbase[0]]];
    ghost var column, counts := target[..nblock0], unzftab[..];
    HoldingIs(syms0, target, nblock0, unzftab, mtfa, mtfbase, seqToUnseq[..]);
    RunProduced(syms0, syms, column, counts, mtfa[..], mtfbase[..], seqToUnseq[..], uc, es);
    if good {
      FollowingFacts(src.mtfv, nums, nInUse, nblockMAX, syms, nextSym);
      RunFits(seqToUnseq[..], syms, column, uc, es, counts[uc := counts[uc] + es], mtfa[..], mtfbase[..]);
    }
    unzftab[uc] := unzftab[uc] + es;
    assert unzftab[..] == counts[uc := counts[uc] + es];
    var ok;
    ok, nblock := AppendRun(target, nblock0, uc, es, nblockMAX);
    if !ok { return Bad, nextSym, nblock, syms; }
    assert unzftab[..] == counts[uc := counts[uc] + es];
    assert target[..nblock] == column + Rep(uc, es);
    HoldingStays(syms, target, nblock, unzftab, mtfa, mtfbase, seqToUnseq[..]);
  }

  lemma RunFits(unseq: seq<Byte>, syms: seq<int>, column: seq<int>, uc: Byte, es: nat, counts: seq<int>,
                mtfa: seq<Byte>, base: seq<int>)
    requires Produced(syms, column + Rep(uc, es), counts, mtfa, base, unseq)
    ensures Symbols(Identity(), syms) && |column| + es == |Output(After(Identity(), syms))|
  {
    hide After, Output, Represents, Tallied;
  }

  /** An index into the list. */
  method TakeIndex(nextSym: int, seqToUnseq: array<Byte>, target: array<int>, nblock0: int, unzftab: array<int>,
                   mtfa: array<Byte>, mtfbase: array<int>, ghost syms: seq<int>) returns (nblock: int)
    requires RUNB < nextSym <= 256 && target != unzftab && target != mtfbase && unzftab != mtfbase
    requires mtfa as object != target && mtfa as object != unzftab && mtfa as object != mtfbase && mtfa != seqToUnseq
    requires seqToUnseq as object != target && seqToUnseq as object != unzftab && seqToUnseq as object != mtfbase
    requires seqToUnseq.Length == 256 && 0 <= nblock0 < target.Length
    requires Holding(syms, target, nblock0, unzftab, mtfa, mtfbase, seqToUnseq[..])
    modifies target, unzftab, mtfa, mtfbase
    ensures nblock == nblock0 + 1 && Holding(syms + [nextSym], target, nblock, unzftab, mtfa, mtfbase, seqToUnseq[..])
    ensures After(Identity(), syms + [nextSym]).run == 0 && After(Identity(), syms + [nextSym]).weight == 1
  {
    hide After, Output, Represents, InPlace, Produced, Tallied;
    HoldingFacts(syms, target, nblock0, unzftab, mtfa, mtfbase, seqToUnseq[..]);
    ghost var column, counts, mtfa0, base0, unseq := target[..nblock0], unzftab[..], mtfa[..], mtfbase[..],
        seqToUnseq[..];
    var uc := MoveToFrontAt(mtfa, mtfbase, nextSym - 1, After(Identity(), syms).list);
    assert target[..nblock0] == column && unzftab[..] == counts && seqToUnseq[..] == unseq;
    IndexProduced(syms, nextSym, column, counts, mtfa0, base0, unseq, mtfa[..], mtfbase[..], uc);
    unzftab[seqToUnseq[uc]] := unzftab[seqToUnseq[uc]] + 1;
    target[nblock0] := seqToUnseq[uc];
    nblock := nblock0 + 1;
    assert unzftab[..] == counts[unseq[uc] := counts[unseq[uc]] + 1];
    assert target[..nblock] == column + [unseq[uc] as int];
    HoldingStays(syms + [nextSym], target, nblock, unzftab, mtfa, mtfbase, unseq);
  }

  lemma HoldingStays(syms: seq<int>, target: array<int>, nblock: int, unzftab: array<int>, mtfa: array<Byte>,
                     mtfbase: array<int>, unseq: seq<Byte>)
    requires 0 <= nblock <= target.Length && mtfbase.Length == SEGMENTS
    requires Produced(syms, target[..nblock], unzftab[..], mtfa[..], mtfbase[..], unseq)
    ensures Holding(syms, target, nblock, unzftab, mtfa, mtfbase, unseq)
  {
    hide Produced;
  }

  /** Nothing counted, and the segments in order. */
  method StartColumn(target: array<int>, unzftab: array<int>, mtfa: array<Byte>, mtfbase: array<int>,
                     ghost unseq: seq<Byte>)
    requires target != unzftab && target != mtfbase && unzftab != mtfbase && unzftab.Length == |unseq| == 256
    requires mtfa.Length == MTFA_SIZE && mtfbase.Length == SEGMENTS
    modifies unzftab, mtfa, mtfbase
    ensures Symbols(Identity(), []) && Holding([], target, 0, unzftab, mtfa, mtfbase, unseq)
    ensures After(Identity(), []).run == 0 && After(Identity(), []).weight == 1
  {
    hide After, Output, Represents, InPlace, Produced, Tallied, Holding, Mapped, Identity;
    for i := 0 to 256
      invariant forall k | 0 <= k < i :: unzftab[k] == 0
    {
      unzftab[i] := 0;
    }
    InitMtf(mtfa, mtfbase);
    NothingProduced(unzftab[..], mtfa[..], mtfbase[..], unseq);
    assert target[..0] == [];
    HoldingStays([], target, 0, unzftab, mtfa, mtfbase, unseq);
  }

  /** The column is exactly what the symbols consumed stand for, whatever they were; and when they are those of
      a column that was sent, it is that column, and nothing of it is rejected. */
  method ReadColumn(src: SymbolSource, nInUse: int, seqToUnseq: array<Byte>, target: array<int>, unzftab: array<int>,
                    nblockMAX: int, ghost nums: seq<Byte>)
    returns (status: Status, nblock: int, ghost syms: seq<int>)
    requires src.Valid() && src.alphaSize == nInUse + 2 && 0 < nInUse <= 256
    requires target != unzftab && target != src.selector && unzftab != src.selector && unzftab.Length == 256
    requires seqToUnseq as object != target && seqToUnseq as object != unzftab
    requires seqToUnseq.Length == 256 && 0 <= nblockMAX <= target.Length && nblockMAX <= 900000
    modifies src, src.r, target, unzftab
    ensures src.Valid() && !status.Overrun? && (status.Good? ==> |src.r.Unread()| <= |old(src.r.Unread())|)
    ensures status.Good? ==>
              && 0 <= nblock <= nblockMAX && Symbols(Identity(), syms) && Tallied(unzftab[..], target[..nblock])
              && target[..nblock] == Mapped(seqToUnseq[..], Output(After(Identity(), syms)))
    ensures old(src.At(0)) && Sent(src.mtfv, nums, nInUse, nblockMAX) ==>
              status.Good? && target[..nblock] == Mapped(seqToUnseq[..], nums)
                  && Coming(src.r.Unread(), src.bits, src.rest)
  {
    hide Sent, Following, After, Output, Represents, InPlace, TablesFor, AtSymbol, Produced, Tallied, Holding,
         BitReader.Valid, BitReader.Unread, Mapped, Symbols, Identity, Coming, IsSymbol, Step;
    ghost var good := src.At(0) && Sent(src.mtfv, nums, nInUse, nblockMAX);
    ghost var unseq := seqToUnseq[..];
    nblock, syms := 0, [];
    var eob := nInUse + 1;
    var mtfa, mtfbase := new Byte[MTFA_SIZE], new int[SEGMENTS];
    StartColumn(target, unzftab, mtfa, mtfbase, unseq);
    if good { SentStart(src.mtfv, nums, nInUse, nblockMAX); }
    var res := src.Next(0);
    if res.DataError? { return Bad, nblock, syms; }
    if res.NeedMore? { return Hungry, nblock, syms; }
    var nextSym := res.sym;
    if good { FollowingStart(src.mtfv, nums, nInUse, nblockMAX, nextSym); }
    while nextSym != eob
      invariant src.Valid() && seqToUnseq[..] == unseq && 0 <= nextSym <= eob && 0 <= nblock <= nblockMAX
      invariant |src.r.Unread()| <= |old(src.r.Unread())|
      invariant Symbols(Identity(), syms) && Holding(syms, target, nblock, unzftab, mtfa, mtfbase, unseq)
      invariant nextSym <= RUNB ==> After(Identity(), syms).run == 0 && After(Identity(), syms).weight == 1
      invariant good ==> OnTrack(src, nums, nInUse, nblockMAX, syms, nextSym)
      decreases |src.r.Unread()|
    {
      HoldingFacts(syms, target, nblock, unzftab, mtfa, mtfbase, unseq);
      if nextSym == RUNA || nextSym == RUNB {
        status, nextSym, nblock, syms :=
          TakeRun(src, nextSym, nInUse, seqToUnseq, target, nblock, unzftab, mtfa, mtfbase, nblockMAX, nums, syms);
        if !status.Good? { return; }
        HoldingFacts(syms, target, nblock, unzftab, mtfa, mtfbase, unseq);
      } else {
        if good { FollowingFacts(src.mtfv, nums, nInUse, nblockMAX, syms, nextSym); }
        if nblock >= nblockMAX { return Bad, nblock, syms; }
        nblock := TakeIndex(nextSym, seqToUnseq, target, nblock, unzftab, mtfa, mtfbase, syms);
        res := Follow(src, nums, nInUse, nblockMAX, syms, nextSym);
        HoldingFacts(syms + [nextSym], target, nblock, unzftab, mtfa, mtfbase, unseq);
        syms := syms + [nextSym];
        if res.DataError? { return Bad, nblock, syms; }
        if res.NeedMore? { return Hungry, nblock, syms; }
        nextSym := res.sym;
      }
    }
    HoldingFacts(syms, target, nblock, unzftab, mtfa, mtfbase, unseq);
    if good {
      FollowingFacts(src.mtfv, nums, nInUse, nblockMAX, syms, nextSym);
      src.Done();
    }
    status := Good;
  }

  lemma SentStart(mtfv: seq<int>, nums: seq<Byte>, nInUse: int, room: int)
    requires Sent(mtfv, nums, nInUse, room)
    ensures |mtfv| > 0
  {
  }

  lemma FollowingStart(mtfv: seq<int>, nums: seq<Byte>, nInUse: int, room: int, nextSym: int)
    requires Sent(mtfv, nums, nInUse, room) && |mtfv| > 0 && nextSym == mtfv[0]
    ensures Following(mtfv, nums, nInUse, room, [], nextSym)
  {
    hide Sent;
  }
}
