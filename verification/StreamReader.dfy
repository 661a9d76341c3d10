/** The fixed fields of a stream as BZ2_decompress reads them: magic numbers, checksums, the origin pointer. */
module StreamReader {
  import opened Permutations
  import opened Bits
  import opened BitStream
  import opened BlockReader

  /** GET_UCHAR. */
  method GetByte(r: BitReader, ghost want: Byte, ghost bits: seq<bool>, ghost rest: seq<bool>)
    returns (ok: bool, c: Byte)
    requires r.Valid()
    modifies r
    ensures r.Valid() && (!ok ==> r.nextIn == []) && (ok <==> |old(r.Unread())| >= 8)
    ensures ok ==> Coming(old(r.Unread()), ToBits(c, 8), r.Unread()) && |r.Unread()| == |old(r.Unread())| - 8
    ensures Coming(old(r.Unread()), ToBits(want, 8) + bits, rest) ==> ok && c == want && Coming(r.Unread(), bits, rest)
  {
    hide ToBits, BytesToBits, Coming, IsTail;
    Powers();
    ghost var u := r.Unread();
    if Coming(u, ToBits(want, 8) + bits, rest) {
      NextBits(u, ToBits(want, 8), bits, rest);
      ValueToBits(want, 8);
    }
    var v;
    ok, v := r.Get(8);
    if ok { ByteRead(u, v); }
    c := if ok then v else 0;
  }

  lemma ByteRead(u: seq<bool>, v: int)
    requires |u| >= 8 && v == Value(u[..8])
    ensures 0 <= v < 256 && Coming(u, ToBits(v, 8), u[8..])
  {
    hide ToBits, Value, IsTail;
    Powers();
    ToBitsValue(u[..8]);
  }

  lemma NothingRead(u: seq<bool>)
    ensures Coming(u, ToBits(0, 0), u) && Coming(u, BytesToBits([]), u)
  {
    assert [] + u == u;
  }

  /** A number sent as whole bytes, put together from the most significant one down. */
  method GetBytes(r: BitReader, n: int, ghost want: nat, ghost bits: seq<bool>, ghost rest: seq<bool>)
    returns (ok: bool, v: int)
    requires r.Valid() && 0 <= n <= 4
    modifies r
    ensures r.Valid() && (!ok ==> r.nextIn == []) && (ok <==> |old(r.Unread())| >= 8 * n)
    ensures ok ==> |r.Unread()| == |old(r.Unread())| - 8 * n
    ensures ok ==> 0 <= v < Pow2(8 * n) && Coming(old(r.Unread()), ToBits(v, 8 * n), r.Unread())
    ensures want < Pow2(8 * n) && Coming(old(r.Unread()), ToBits(want, 8 * n) + bits, rest) ==>
              ok && v == want && Coming(r.Unread(), bits, rest)
  {
    hide ToBits, BytesToBits, Coming, Pow2, IsTail;
    ghost var good := want < Pow2(8 * n) && Coming(r.Unread(), ToBits(want, 8 * n) + bits, rest);
    v := 0;
    ok := true;
    if good { NoHighBytes(want, n); }
    NothingRead(r.Unread());
    assert Pow2(0) == 1 by { Pow2Of1(); }
    for i := 0 to n
      invariant r.Valid() && |r.Unread()| == |old(r.Unread())| - 8 * i
      invariant 0 <= v < Pow2(8 * i) && Coming(old(r.Unread()), ToBits(v, 8 * i), r.Unread())
      invariant good ==> v == want / Pow2(8 * (n - i)) && Coming(r.Unread(), ToBits(want, 8 * (n - i)) + bits, rest)
    {
      ghost var m := 8 * (n - i - 1);
      ghost var c: Byte := if good then (want / Pow2(m)) % 256 else 0;
      if good {
        TopByte(want, m);
        assert ToBits(want, 8 * (n - i)) + bits == ToBits(c, 8) + (ToBits(want, m) + bits);
      }
      ghost var left := r.Unread();
      var uc;
      ok, uc := GetByte(r, c, ToBits(want, m) + bits, rest);
      if !ok { return; }
      ReadOn(old(r.Unread()), ToBits(v, 8 * i), ToBits(uc, 8), left, r.Unread());
      MoreBits(v, uc, 8 * i);
      if good { NextQuotient(want, m); }
      OneMoreByte(v, uc, i);
      v := v * 256 + uc;
    }
    if good { WholeNumber(want, bits); }
  }

  lemma NoHighBytes(want: nat, n: nat)
    requires want < Pow2(8 * n)
    ensures want / Pow2(8 * n) == 0
  {
    hide Pow2;
    QuotientIs(want, Pow2(8 * n), 0, want);
  }

  lemma TopByte(want: nat, m: nat)
    ensures ToBits(want, m + 8) == ToBits((want / Pow2(m)) % 256, 8) + ToBits(want, m)
  {
    hide ToBits, Pow2, IsTail;
    SplitBits(want, 8, m);
    var q := want / Pow2(m);
    Powers();
    var h, r := q / 256, q % 256;
    assert q == h * 256 + r;
    LowBits(h, r, 8, 8);
  }

  lemma NextQuotient(want: nat, m: nat)
    ensures want / Pow2(m) == want / Pow2(m + 8) * 256 + (want / Pow2(m)) % 256
  {
    hide Pow2;
    var p := Pow2(m);
    Powers();
    Pow2Add(m, 8);
    var q := want / p;
    var h, r := q / 256, q % 256;
    assert want == p * q + want % p && q == 256 * h + r;
    assert p * q == (p * 256) * h + p * r by { Expand(p, h, r); }
    Below(p, r, want % p);
    QuotientIs(want, p * 256, h, p * r + want % p);
  }

  lemma Expand(p: int, h: int, r: int)
    ensures p * (256 * h + r) == (p * 256) * h + p * r
  {
  }

  lemma Below(p: int, r: int, s: int)
    requires 0 <= r <= 255 && 0 <= s < p
    ensures 0 <= p * r + s < p * 256
  {
    assert p * r <= p * 255;
  }

  lemma MoreBits(v: nat, c: Byte, m: nat)
    ensures ToBits(v * 256 + c, m + 8) == ToBits(v, m) + ToBits(c, 8)
  {
    hide ToBits, IsTail;
    LowByte(v * 256 + c, m);
  }

  lemma OneMoreByte(v: int, c: Byte, i: nat)
    requires 0 <= v < Pow2(8 * i)
    ensures 0 <= v * 256 + c < Pow2(8 * (i + 1))
  {
    hide Pow2;
    Powers();
    Pow2Add(8 * i, 8);
  }

  lemma WholeNumber(want: nat, bits: seq<bool>)
    ensures want / Pow2(0) == want && ToBits(want, 0) + bits == bits
  {
  }

  /** The bytes of a magic number, one by one; the first one that differs ends the reading. */
  method ExpectBytes(r: BitReader, bytes: seq<Byte>, ghost bits: seq<bool>, ghost rest: seq<bool>)
    returns (status: Status)
    requires r.Valid()
    modifies r
    ensures r.Valid() && !status.Overrun? && (status.Good? <==> BytesToBits(bytes) <= old(r.Unread()))
    ensures status.Good? ==> Coming(old(r.Unread()), BytesToBits(bytes), r.Unread())
                             && |old(r.Unread())| == 8 * |bytes| + |r.Unread()|
    ensures Coming(old(r.Unread()), BytesToBits(bytes) + bits, rest) ==> status.Good? && Coming(r.Unread(), bits, rest)
  {
    hide ToBits, BytesToBits, Coming, BitReader.Valid;
    ghost var u := r.Unread();
    ghost var good := BytesToBits(bytes) <= u;
    if Coming(u, BytesToBits(bytes) + bits, rest) { ComesFirst(u, BytesToBits(bytes), bits, rest); }
    assert bytes[0..] == bytes && bytes[..0] == [];
    NothingRead(u);
    for i := 0 to |bytes|
      invariant r.Valid() && Coming(u, BytesToBits(bytes[..i]), r.Unread())
      invariant good ==> BytesToBits(bytes[i..]) <= r.Unread()
    {
      BytesHead(bytes[i..]);
      assert bytes[i..][1..] == bytes[i + 1..];
      ghost var left, tail := r.Unread(), BytesToBits(bytes[i + 1..]);
      ghost var more := [];
      if good { more := Behind(left, ToBits(bytes[i], 8), tail); }
      var ok, uc := GetByte(r, bytes[i], tail, more);
      if !ok { return Hungry; }
      if uc != bytes[i] { return Bad; }
      if good { TailNext(tail, more, r.Unread()); }
      ReadOn(u, BytesToBits(bytes[..i]), ToBits(uc, 8), left, r.Unread());
      assert bytes[..i + 1] == bytes[..i] + [uc];
      BytesAppend(bytes[..i], uc);
    }
    assert bytes[..|bytes|] == bytes;
    AllRead(u, BytesToBits(bytes), r.Unread(), bits, rest);
    status := Good;
  }

  lemma ComesFirst(u: seq<bool>, chunk: seq<bool>, bits: seq<bool>, rest: seq<bool>)
    requires Coming(u, chunk + bits, rest)
    ensures chunk <= u
  {
  }

  /** What follows two chunks. */
  lemma Behind(u: seq<bool>, head: seq<bool>, tail: seq<bool>) returns (rest: seq<bool>)
    requires head + tail <= u
    ensures Coming(u, head + tail, rest)
  {
    rest := u[|head + tail|..];
  }

  lemma TailNext(tail: seq<bool>, rest: seq<bool>, u: seq<bool>)
    requires Coming(u, tail, rest)
    ensures tail <= u
  {
  }

  lemma AllRead(u: seq<bool>, chunk: seq<bool>, u': seq<bool>, bits: seq<bool>, rest: seq<bool>)
    requires Coming(u, chunk, u')
    ensures chunk <= u && |u| == |chunk| + |u'| && (Coming(u, chunk + bits, rest) ==> Coming(u', bits, rest))
  {
    if Coming(u, chunk + bits, rest) {
      assert u[|chunk|..] == u';
      assert u[|chunk|..] == bits + rest;
    }
  }
}
