/** The selectors as BZ2_decompress receives them, into arrays that hold BZ_MAX_SELECTORS of them. */
module SelectorReader {
  import opened Permutations
  import opened Bits
  import opened BitStream
  import opened MoveToFront
  import opened BlockFormat
  import opened BlockReader

  // ---- when the arrays are left ----

  /** Indices for n tables come next, announced as count of them. */
  ghost predicate Announced(unread: seq<bool>, n: nat, count: nat, js: seq<int>) {
    && 2 <= n <= BZ_N_GROUPS && 1 <= count < 32768 && Indices(js, n)
    && ToBits(n, 3) + ToBits(count, 15) + UnariesFrom(js, 0) <= unread
  }

  ghost predicate OverrunBy(unread: seq<bool>, n: nat, count: nat, js: seq<int>) {
    count > BZ_MAX_SELECTORS && |js| == BZ_MAX_SELECTORS + 1 && Announced(unread, n, count, js)
  }

  /** More than BZ_MAX_SELECTORS selectors are announced, and as many as the arrays hold, and one more, come. Only
      their count being 0 is checked, so the last one is stored behind the array. */
  ghost predicate Overruns(unread: seq<bool>) {
    exists n: nat, count: nat, js: seq<int> :: OverrunBy(unread, n, count, js)
  }

  /** What is announced is determined by the bits. */
  lemma SameAnnounced(unread: seq<bool>, n: nat, count: nat, js: seq<int>, n': nat, count': nat, js': seq<int>)
    requires Announced(unread, n, count, js) && Announced(unread, n', count', js')
    ensures n == n' && count == count'
  {
    hide ToBits, UnariesFrom, Pow2, Value;
    WidthPowers();
    ValueToBits(n, 3);
    ValueToBits(n', 3);
    ValueToBits(count, 15);
    ValueToBits(count', 15);
    assert ToBits(n, 3) == unread[..3] == ToBits(n', 3);
    assert ToBits(count, 15) == unread[3..18] == ToBits(count', 15);
  }

  /** Selectors that were sent, any number of them, leave the arrays exactly if there are more than fit. */
  lemma SentOverruns(js: seq<int>, n: nat, bits: seq<bool>)
    requires 2 <= n <= BZ_N_GROUPS && 1 <= |js| < 32768 && Indices(js, n)
    ensures Overruns(SelectorBits(js, n) + bits) <==> |js| > BZ_MAX_SELECTORS
  {
    hide ToBits, UnariesFrom, Pow2;
    var u := SelectorBits(js, n) + bits;
    if |js| > BZ_MAX_SELECTORS {
      var front := js[..BZ_MAX_SELECTORS + 1];
      UnariesPrefix(front, js[BZ_MAX_SELECTORS + 1..]);
      assert js == front + js[BZ_MAX_SELECTORS + 1..];
      assert OverrunBy(u, n, |js|, front);
    }
    if Overruns(u) {
      var n': nat, count': nat, js': seq<int> :| OverrunBy(u, n', count', js');
      assert Announced(u, n, |js|, js);
      SameAnnounced(u, n, |js|, js, n', count', js');
    }
  }

  /** The shortest such input: 18003 times the same table. */
  lemma TooManySelectors()
    ensures Overruns(SelectorBits(seq(BZ_MAX_SELECTORS + 1, _ => 0), 2))
  {
    hide ToBits, UnariesFrom, Overruns;
    var js := seq(BZ_MAX_SELECTORS + 1, _ => 0);
    SentOverruns(js, 2, []);
    assert SelectorBits(js, 2) + [] == SelectorBits(js, 2);
  }

  lemma {:induction false} UnariesPrefix(js: seq<int>, more: seq<int>)
    requires Naturals(js) && Naturals(more)
    ensures Naturals(js + more) && UnariesFrom(js, 0) <= UnariesFrom(js + more, 0)
  {
    UnariesSplit(js, more, 0);
  }

  lemma {:induction false} UnariesSplit(js: seq<int>, more: seq<int>, i: nat)
    requires Naturals(js) && Naturals(more) && i <= |js|
    ensures Naturals(js + more)
    ensures UnariesFrom(js + more, i) == UnariesFrom(js, i) + UnariesFrom(more, 0)
    decreases |js| - i
  {
    assert Naturals(js + more) by {
      forall k | 0 <= k < |js + more| ensures (js + more)[k] >= 0 {
        if k >= |js| { assert (js + more)[k] == more[k - |js|]; }
      }
    }
    if i == |js| {
      UnariesBehind(js, more, 0);
      assert UnariesFrom(js, i) + UnariesFrom(more, 0) == UnariesFrom(more, 0);
    } else {
      UnariesSplit(js, more, i + 1);
      assert (js + more)[i] == js[i];
      var a, b, c := Unary(js[i]), UnariesFrom(js, i + 1), UnariesFrom(more, 0);
      assert a + (b + c) == (a + b) + c;
    }
  }

  lemma {:induction false} UnariesBehind(js: seq<int>, more: seq<int>, i: nat)
    requires Naturals(more) && Naturals(js + more) && i <= |more|
    ensures UnariesFrom(js + more, |js| + i) == UnariesFrom(more, i)
    decreases |more| - i
  {
    if i < |more| {
      UnariesBehind(js, more, i + 1);
      assert (js + more)[|js| + i] == more[i];
    }
  }

  lemma UnariesOne(js: seq<int>, j: nat)
    requires Naturals(js)
    ensures UnariesFrom(js + [j], 0) == UnariesFrom(js, 0) + Unary(j)
  {
    hide Unary;
    UnariesSplit(js, [j], 0);
    assert UnariesFrom([j], 0) == Unary(j) + UnariesFrom([j], 1) == Unary(j);
  }

  // ---- receiving ----

  /** One index below n. */
  method ReadUnary(r: BitReader, n: int, ghost want: nat, ghost bits: seq<bool>, ghost rest: seq<bool>)
    returns (status: Status, j: int)
    requires r.Valid() && n >= 1
    modifies r
    ensures r.Valid() && !status.Overrun?
    ensures status.Good? ==> 0 <= j < n && Coming(old(r.Unread()), Unary(j), r.Unread())
    ensures want < n && Coming(old(r.Unread()), Unary(want) + bits, rest) ==>
              status.Good? && j == want && Coming(r.Unread(), bits, rest)
  {
    hide Coming, BitReader.Valid;
    ghost var good := want < n && Coming(r.Unread(), Unary(want) + bits, rest);
    j := 0;
    if good { assert Unary(want)[0..] + bits == Unary(want) + bits; }
    OnesRead(r.Unread());
    while true
      invariant r.Valid() && 0 <= j < n && Coming(old(r.Unread()), Ones(j), r.Unread())
      invariant good ==> j <= want && Coming(r.Unread(), Unary(want)[j..] + bits, rest)
      decreases n - j
    {
      if good {
        assert Unary(want)[j..] + bits == [Unary(want)[j]] + (Unary(want)[j + 1..] + bits);
        NextBits(r.Unread(), [Unary(want)[j]], Unary(want)[j + 1..] + bits, rest);
      }
      ghost var u := r.Unread();
      var ok, uc := GetBit(r);
      if !ok { return Hungry, j; }
      BitRead(u, r.Unread());
      ReadOn(old(r.Unread()), Ones(j), [uc], u, r.Unread());
      assert good ==> uc == u[..1][0];
      if !uc { break; }
      OneMore(j);
      j := j + 1;
      if j >= n { return Bad, j; }
    }
    if good { assert Unary(want)[want + 1..] + bits == bits; }
    UnaryIs(j);
    status := Good;
  }

  ghost function Ones(j: nat): seq<bool> {
    seq(j, _ => true)
  }

  lemma OnesRead(u: seq<bool>)
    ensures Coming(u, Ones(0), u)
  {
    assert Ones(0) + u == u;
  }

  lemma OneMore(j: nat)
    ensures Ones(j) + [true] == Ones(j + 1)
  {
  }

  lemma UnaryIs(j: nat)
    ensures Ones(j) + [false] == Unary(j)
  {
  }

  lemma BitRead(u: seq<bool>, u': seq<bool>)
    requires |u| >= 1 && u' == u[1..]
    ensures Coming(u, [u[0]], u')
  {
    assert [u[0]] + u[1..] == u;
  }

  /** The indices, stored one by one. Where they are no more than fit, or enough to go beyond that, what was sent
      decides. */
  method ReadIndices(r: BitReader, selectorMtf: array<int>, nGroups: int, nSelectors: int, ghost js: seq<int>,
                     ghost bits: seq<bool>, ghost rest: seq<bool>)
    returns (status: Status, ghost got: seq<int>)
    requires r.Valid() && selectorMtf.Length == BZ_MAX_SELECTORS && nGroups >= 1 && nSelectors >= 0
    modifies r, selectorMtf
    ensures r.Valid() && Indices(got, nGroups)
    ensures status.Good? ==> nSelectors <= BZ_MAX_SELECTORS && selectorMtf[..nSelectors] == got
    ensures status.Overrun? ==> nSelectors > BZ_MAX_SELECTORS && |got| == BZ_MAX_SELECTORS + 1
    ensures status.Good? || status.Overrun? ==> Coming(old(r.Unread()), UnariesFrom(got, 0), r.Unread())
    ensures Indices(js, nGroups) && Coming(old(r.Unread()), UnariesFrom(js, 0) + bits, rest)
            && |js| == nSelectors <= BZ_MAX_SELECTORS ==>
              status.Good? && got == js && Coming(r.Unread(), bits, rest)
    ensures Indices(js, nGroups) && Coming(old(r.Unread()), UnariesFrom(js, 0) + bits, rest)
            && |js| == BZ_MAX_SELECTORS + 1 <= nSelectors ==>
              status.Overrun?
  {
    hide ToBits, Pow2, Coming, UnariesFrom, Unary, BitReader.Valid;
    ghost var good := Indices(js, nGroups) && Coming(r.Unread(), UnariesFrom(js, 0) + bits, rest)
      && |js| <= nSelectors && (|js| == nSelectors || |js| == BZ_MAX_SELECTORS + 1);
    got := [];
    NothingGot(r.Unread());
    for i := 0 to nSelectors
      invariant r.Valid() && i <= BZ_MAX_SELECTORS && selectorMtf[..i] == got && Indices(got, nGroups)
      invariant Coming(old(r.Unread()), UnariesFrom(got, 0), r.Unread())
      invariant good ==> i <= |js| && got == js[..i] && Coming(r.Unread(), UnariesFrom(js, i) + bits, rest)
    {
      if good { UnaryParts(js, i, bits); }
      ghost var u := r.Unread();
      var j;
      status, j := ReadUnary(r, nGroups, if good then js[i] else 0, if good then UnariesFrom(js, i + 1) + bits else [],
                             rest);
      if !status.Good? { return; }
      ReadOn(old(r.Unread()), UnariesFrom(got, 0), Unary(j), u, r.Unread());
      UnariesOne(got, j);
      got := got + [j];
      if i >= selectorMtf.Length { return Overrun, got; }
      selectorMtf[i] := j;
      if good { assert js[..i + 1] == js[..i] + [js[i]]; }
    }
    if good { UnariesDone(js, bits); }
    status := Good;
  }

  lemma NothingGot(u: seq<bool>)
    ensures Coming(u, UnariesFrom([], 0), u)
  {
    assert [] + u == u;
  }

  /** nGroups, nSelectors and the selectors' indices. */
  method ReadSelectors(r: BitReader, selectorMtf: array<int>, ghost js: seq<int>, ghost n: nat, ghost bits: seq<bool>,
                       ghost rest: seq<bool>)
    returns (status: Status, nGroups: int, nSelectors: int)
    requires r.Valid() && selectorMtf.Length == BZ_MAX_SELECTORS
    modifies r, selectorMtf
    ensures r.Valid() && (status.Overrun? <==> Overruns(old(r.Unread())))
    ensures status.Good? ==>
              2 <= nGroups <= BZ_N_GROUPS && 1 <= nSelectors <= BZ_MAX_SELECTORS
              && Indices(selectorMtf[..nSelectors], nGroups) && |r.Unread()| <= |old(r.Unread())|
    ensures 2 <= n <= BZ_N_GROUPS && 1 <= |js| <= BZ_MAX_SELECTORS && Indices(js, n)
            && Coming(old(r.Unread()), SelectorBits(js, n) + bits, rest) ==>
              status.Good? && nGroups == n && nSelectors == |js| && selectorMtf[..nSelectors] == js
                  && Coming(r.Unread(), bits, rest)
  {
    hide ToBits, Pow2, Coming, UnariesFrom, SelectorBits, BitReader.Valid, Overruns, Announced, OverrunBy;
    ghost var u := r.Unread();
    ghost var good, n0, count0, js0, bits0, rest0 := Expected(u, js, n, bits, rest);
    nSelectors := 0;
    ghost var tail := if good then UnariesFrom(js0, 0) + bits0 else [];
    WidthPowers();
    var ok;
    ok, nGroups := GetNumber(r, 3, n0, ToBits(count0, 15) + tail, rest0);
    if !ok { return Hungry, nGroups, 0; }
    if nGroups < 2 || nGroups > 6 { return Bad, nGroups, 0; }
    ghost var u1 := r.Unread();
    ok, nSelectors := GetNumber(r, 15, count0, tail, rest0);
    if !ok { return Hungry, nGroups, 0; }
    if nSelectors < 1 { return Bad, nGroups, nSelectors; }
    ghost var u2 := r.Unread();
    ghost var got;
    status, got := ReadIndices(r, selectorMtf, nGroups, nSelectors, js0, bits0, rest0);
    if status.Overrun? { WasOverrun(u, u1, u2, r.Unread(), nGroups, nSelectors, got); }
    if status.Good? { LessLeft(u2, UnariesFrom(got, 0), r.Unread()); }
  }

  lemma LessLeft(u: seq<bool>, read: seq<bool>, u': seq<bool>)
    requires Coming(u, read, u')
    ensures |u'| <= |u|
  {
  }

  /** What to expect of the input: selectors that do not fit, or the ones that were sent. */
  lemma Expected(u: seq<bool>, js: seq<int>, n: nat, bits: seq<bool>, rest: seq<bool>)
    returns (good: bool, n0: nat, count0: nat, js0: seq<int>, bits0: seq<bool>, rest0: seq<bool>)
    ensures n0 < 8 && count0 < 32768
    ensures good ==>
              && 2 <= n0 <= BZ_N_GROUPS && 1 <= count0 && Indices(js0, n0)
              && Coming(u, ToBits(n0, 3) + (ToBits(count0, 15) + (UnariesFrom(js0, 0) + bits0)), rest0)
    ensures Overruns(u) ==> good && |js0| == BZ_MAX_SELECTORS + 1 <= count0
    ensures 2 <= n <= BZ_N_GROUPS && 1 <= |js| <= BZ_MAX_SELECTORS && Indices(js, n)
            && Coming(u, SelectorBits(js, n) + bits, rest) ==>
              good && !Overruns(u) && n0 == n && count0 == |js| && js0 == js && bits0 == bits && rest0 == rest
    ensures !Overruns(u) && good ==> 1 <= |js0| == count0 <= BZ_MAX_SELECTORS
  {
    hide ToBits, UnariesFrom, Coming;
    var sent := 2 <= n <= BZ_N_GROUPS && 1 <= |js| <= BZ_MAX_SELECTORS && Indices(js, n)
      && Coming(u, SelectorBits(js, n) + bits, rest);
    if Overruns(u) {
      n0, count0, js0 :| OverrunBy(u, n0, count0, js0);
      good, bits0 := true, [];
      rest0 := OverrunComing(u, n0, count0, js0);
      if sent {
        SentAnnounced(u, js, n, bits, rest);
        SameAnnounced(u, n, |js|, js, n0, count0, js0);
      }
    } else if sent {
      good, n0, count0, js0, bits0, rest0 := true, n, |js|, js, bits, rest;
      SelectorParts(js, n, bits);
    } else {
      good, n0, count0, js0, bits0, rest0 := false, 0, 0, [], [], [];
    }
  }

  lemma OverrunComing(u: seq<bool>, n: nat, count: nat, js: seq<int>) returns (rest: seq<bool>)
    requires Announced(u, n, count, js)
    ensures Coming(u, ToBits(n, 3) + (ToBits(count, 15) + (UnariesFrom(js, 0) + [])), rest)
  {
    hide ToBits, UnariesFrom;
    var a, b, c := ToBits(n, 3), ToBits(count, 15), UnariesFrom(js, 0);
    assert c + [] == c && a + (b + c) == a + b + c;
    rest := u[|a + b + c|..];
  }

  lemma SentAnnounced(u: seq<bool>, js: seq<int>, n: nat, bits: seq<bool>, rest: seq<bool>)
    requires 2 <= n <= BZ_N_GROUPS && 1 <= |js| <= BZ_MAX_SELECTORS && Indices(js, n)
    requires Coming(u, SelectorBits(js, n) + bits, rest)
    ensures Announced(u, n, |js|, js)
  {
    hide ToBits, UnariesFrom;
  }

  lemma WasOverrun(u: seq<bool>, u1: seq<bool>, u2: seq<bool>, u3: seq<bool>, n: nat, count: nat, got: seq<int>)
    requires Coming(u, ToBits(n, 3), u1) && Coming(u1, ToBits(count, 15), u2) && 2 <= n <= BZ_N_GROUPS
    requires Indices(got, n) && Coming(u2, UnariesFrom(got, 0), u3)
    requires BZ_MAX_SELECTORS < count < 32768 && |got| == BZ_MAX_SELECTORS + 1
    ensures Overruns(u)
  {
    hide ToBits, UnariesFrom;
    assert u == ToBits(n, 3) + ToBits(count, 15) + UnariesFrom(got, 0) + u3;
    assert OverrunBy(u, n, count, got);
  }

  lemma SelectorParts(js: seq<int>, n: nat, bits: seq<bool>)
    requires Naturals(js)
    ensures SelectorBits(js, n) + bits == ToBits(n, 3) + (ToBits(|js|, 15) + (UnariesFrom(js, 0) + bits))
  {
    hide ToBits, UnariesFrom;
  }

  lemma UnaryParts(js: seq<int>, i: nat, bits: seq<bool>)
    requires Naturals(js) && i < |js|
    ensures UnariesFrom(js, i) + bits == Unary(js[i]) + (UnariesFrom(js, i + 1) + bits)
  {
  }

  lemma UnariesDone(js: seq<int>, bits: seq<bool>)
    requires Naturals(js)
    ensures UnariesFrom(js, |js|) + bits == bits
  {
  }

  /** Undoes the move-to-front of the selectors. */
  method UndoSelectors(selectorMtf: array<int>, selector: array<int>, nSelectors: int, nGroups: int)
    requires selector != selectorMtf && 1 <= nGroups <= BZ_N_GROUPS
    requires 0 <= nSelectors <= selector.Length && nSelectors <= selectorMtf.Length
    requires Indices(selectorMtf[..nSelectors], nGroups)
    modifies selector
    ensures selector[..nSelectors] == Selected(selectorMtf[..nSelectors], nGroups)
    ensures forall i | 0 <= i < nSelectors :: 0 <= selector[i] < nGroups
  {
    hide TableList, Selected, ToFront;
    var pos := new int[BZ_N_GROUPS];
    for v := 0 to nGroups
      invariant forall k | 0 <= k < v :: pos[k] == k
    {
      pos[v] := v;
    }
    ghost var js := selectorMtf[..nSelectors];
    NothingSelected(nGroups);
    assert js[..0] == [];
    for i := 0 to nSelectors
      invariant selector[..i] == Selected(js[..i], nGroups) && pos[..nGroups] == TableList(js[..i], nGroups)
      invariant selectorMtf[..nSelectors] == js
      invariant forall k | 0 <= k < nGroups :: 0 <= pos[k] < nGroups
      invariant forall k | 0 <= k < i :: 0 <= selector[k] < nGroups
    {
      ghost var done, list := selector[..i], pos[..nGroups];
      assert js[..i + 1] == js[..i] + [js[i]];
      SelectedAppend(js[..i], nGroups, js[i]);
      var v := selectorMtf[i];
      var tmp := pos[v];
      while v > 0
        invariant 0 <= v <= js[i]
        invariant selector[..i] == done && selectorMtf[..nSelectors] == js
        invariant forall k | v < k <= js[i] :: pos[k] == list[k - 1]
        invariant forall k | 0 <= k <= v || js[i] < k < nGroups :: pos[k] == list[k]
        invariant forall k | 0 <= k < i :: 0 <= selector[k] < nGroups
      {
        pos[v] := pos[v - 1];
        v := v - 1;
      }
      pos[0] := tmp;
      MovedIs(list, js[i], pos[..nGroups]);
      selector[i] := tmp;
      assert selector[..i + 1] == done + [tmp];
    }
    assert js[..nSelectors] == js;
  }

  lemma NothingSelected(n: int)
    requires n >= 1
    ensures Selected([], n) == [] && TableList([], n) == Iota(n)
  {
  }

  lemma MovedIs(list: seq<int>, j: nat, moved: seq<int>)
    requires j < |list| == |moved| && moved[0] == list[j]
    requires forall k | 1 <= k <= j :: moved[k] == list[k - 1]
    requires forall k | j < k < |list| :: moved[k] == list[k]
    ensures moved == ToFront(list, j)
  {
  }
}
