/** The bit buffers of the compressor and of the decompressor: 32-bit words filled and emptied from opposite
    ends, abstracted to the bit strings that have been written and that are still to be read. */
module BitStream {
  import opened Permutations
  import opened Bits

  const WORD := 0x1_0000_0000
  const TOP := 0x100_0000

  lemma Powers()
    ensures Pow2(8) == 256 && Pow2(24) == TOP && Pow2(32) == WORD
  {
    assert Pow2(8) == 256;
    Pow2Add(8, 8);
    Pow2Add(16, 8);
    Pow2Add(24, 8);
  }

  // ---- writing ----

  /** The live bits are the top ones of the word, and the rest of it is zero. */
  ghost predicate Aligned(buff: int, live: int, h: nat) {
    0 <= live <= 32 && h < Pow2(live) && buff == h * Pow2(32 - live)
  }

  /** Sending the top byte leaves the other live bits on top. */
  lemma EmitTop(buff: int, live: int, h: nat)
    requires Aligned(buff, live, h) && live >= 8
    ensures var t, r := h / Pow2(live - 8), h % Pow2(live - 8);
      && buff / TOP == t && 0 <= t < 256 && Aligned((buff * 256) % WORD, live - 8, r)
      && ToBits(h, live) == ToBits(t, 8) + ToBits(r, live - 8)
  {
    hide Pow2, ToBits;
    var p, q := Pow2(live - 8), Pow2(32 - live);
    var t, r := h / p, h % p;
    Powers();
    Pow2Add(live - 8, 32 - live);
    Pow2Add(8, 32 - live);
    Pow2Add(8, live - 8);
    assert h == t * p + r;
    assert t < 256 by { QuotientSmall(h, p, 256); }
    assert buff == t * TOP + r * q by { Spread(t, p, r, q); }
    assert 0 <= r * q < TOP by { ProductBelow(r, p, q); }
    QuotientIs(buff, TOP, t, r * q);
    QuotientIs(buff * 256, WORD, t, r * q * 256);
    assert r * q * 256 == r * (256 * q) by { Times256(r, q); }
    JoinBits(t, r, 8, live - 8);
  }

  lemma Times256(r: int, q: int)
    ensures r * q * 256 == r * (256 * q)
  {
  }

  lemma QuotientSmall(h: nat, p: nat, b: nat)
    requires p > 0 && h < b * p
    ensures h / p < b
  {
    if h / p >= b { ProductOrder(b, h / p, p); }
  }

  lemma ProductOrder(x: nat, y: nat, p: nat)
    requires x <= y
    ensures x * p <= y * p
  {
  }

  lemma Spread(t: int, p: int, r: int, q: int)
    ensures (t * p + r) * q == t * (p * q) + r * q
  {
  }

  lemma ProductBelow(r: nat, p: nat, q: nat)
    requires r < p && q > 0
    ensures 0 <= r * q < p * q
  {
  }

  /** Adding n bits below the live ones. */
  lemma AppendBits(buff: int, live: int, h: nat, n: nat, v: nat)
    requires Aligned(buff, live, h) && live + n <= 32 && v < Pow2(n)
    ensures Aligned(buff + v * Pow2(32 - live - n), live + n, h * Pow2(n) + v)
    ensures ToBits(h * Pow2(n) + v, live + n) == ToBits(h, live) + ToBits(v, n)
  {
    hide Pow2, ToBits;
    JoinBits(h, v, live, n);
    var s := Pow2(32 - live - n);
    Pow2Add(n, 32 - live - n);
    Pow2Add(live, n);
    Spread(h, Pow2(n), v, s);
    ProductOrder(h + 1, Pow2(live), Pow2(n));
    assert (h + 1) * Pow2(n) == h * Pow2(n) + Pow2(n) by { OneMore(h, Pow2(n)); }
  }

  lemma OneMore(h: int, p: int)
    ensures (h + 1) * p == h * p + p
  {
  }

  /** What bsW has not yet turned into bytes once it has written n bits: these, and before them fewer than a byte. */
  ghost predicate HeldAfter(live: int, n: int) {
    n <= live < n + 8
  }

  class BitWriter {
    var bsBuff: int
    var bsLive: int
    var zbits: seq<Byte>
    ghost var pending: nat

    ghost predicate Valid()
      reads this
    {
      Aligned(bsBuff, bsLive, pending)
    }

    /** Everything written since the bytes were last taken away. */
    ghost function Written(): seq<bool>
      reads this
      requires Valid()
    {
      BytesToBits(zbits) + ToBits(pending, bsLive)
    }

    /** BZ2_bsInitWrite. */
    constructor ()
      ensures Valid() && Written() == [] && zbits == [] && bsLive == 0
    {
      bsBuff, bsLive, zbits, pending := 0, 0, [], 0;
      new;
    }

    method EmitByte()
      requires Valid() && bsLive >= 8
      modifies this
      ensures Valid() && Written() == old(Written()) && bsLive == old(bsLive) - 8
      ensures |zbits| == |old(zbits)| + 1
    {
      hide Aligned, ToBits, BytesToBits;
      EmitTop(bsBuff, bsLive, pending);
      BytesAppend(zbits, bsBuff / TOP);
      zbits := zbits + [bsBuff / TOP];
      bsBuff := (bsBuff * 256) % WORD;
      pending := pending % Pow2(bsLive - 8);
      bsLive := bsLive - 8;
    }

    /** bsW: flushes whole bytes, then appends the n bits of v. */
    method Put(n: int, v: int)
      requires Valid() && 1 <= n <= 24 && 0 <= v < Pow2(n)
      modifies this
      ensures Valid() && Written() == old(Written()) + ToBits(v, n)
      ensures n <= bsLive < 8 + n
    {
      hide Aligned, ToBits, BytesToBits, Pow2;
      AlignedSize(bsBuff, bsLive, pending);
      while bsLive >= 8
        invariant Valid() && Written() == old(Written()) && 0 <= bsLive
      {
        EmitByte();
      }
      AppendBits(bsBuff, bsLive, pending, n, v);
      bsBuff := bsBuff + v * Pow2(32 - bsLive - n);   // |= v << (32 - bsLive - n)
      pending := pending * Pow2(n) + v;
      bsLive := bsLive + n;
    }

    /** bsPutUChar. */
    method PutByte(c: Byte)
      requires Valid()
      modifies this
      ensures Valid() && Written() == old(Written()) + ToBits(c, 8) && 8 <= bsLive < 16
    {
      Powers();
      Put(8, c);
    }

    /** bsPutUInt32. */
    method PutUInt32(u: int)
      requires Valid() && 0 <= u < WORD
      modifies this
      ensures Valid() && Written() == old(Written()) + ToBits(u, 32)
    {
      hide ToBits, Aligned;
      Powers();
      Put(8, u / TOP);
      Put(8, (u / 65536) % 256);
      Put(8, (u / 256) % 256);
      Put(8, u % 256);
      FourBytes(u);
    }

    /** The finished bytes have been taken away; numZ goes back to zero. */
    method Rewind()
      requires Valid()
      modifies this
      ensures Valid() && zbits == [] && bsLive == old(bsLive)
      ensures BytesToBits(old(zbits)) + Written() == old(Written())
    {
      hide ToBits;
      zbits := [];
      assert BytesToBits([]) + ToBits(pending, bsLive) == ToBits(pending, bsLive);
    }

    /** bsFinishWrite: sends what is left, the last byte filled up with zeros. */
    method Finish()
      requires Valid()
      modifies this
      ensures |BytesToBits(zbits)| - 8 < |old(Written())|
      ensures |old(Written())| <= |BytesToBits(zbits)|
      ensures BytesToBits(zbits) == old(Written()) + seq(|BytesToBits(zbits)| - |old(Written())|, _ => false)
    {
      hide Aligned, ToBits, BytesToBits, Pow2;
      AlignedSize(bsBuff, bsLive, pending);
      while bsLive >= 8
        invariant Valid() && Written() == old(Written()) && 0 <= bsLive
      {
        EmitByte();
      }
      if bsLive > 0 {
        LastByte(bsBuff, bsLive, pending);
        BytesAppend(zbits, bsBuff / TOP);
        zbits := zbits + [bsBuff / TOP];
        bsBuff := (bsBuff * 256) % WORD;
        bsLive := bsLive - 8;
      }
    }
  }

  lemma AlignedSize(buff: int, live: int, h: nat)
    requires Aligned(buff, live, h)
    ensures 0 <= live <= 32
  {
  }

  lemma LastByte(buff: int, live: int, h: nat)
    requires Aligned(buff, live, h) && 0 < live < 8
    ensures 0 <= buff / TOP < 256
    ensures ToBits(buff / TOP, 8) == ToBits(h, live) + seq(8 - live, _ => false)
  {
    hide Pow2, ToBits;
    AppendBits(buff, live, h, 8 - live, 0);
    Pow2Zero();
    EmitTop(buff, 8, h * Pow2(8 - live));
    ZeroBits(8 - live);
    Quot1(h * Pow2(8 - live));
  }

  lemma Pow2Zero()
    ensures Pow2(0) == 1
    ensures forall n: nat :: 0 * Pow2(n) == 0
  {
  }

  lemma Quot1(h: nat)
    ensures h / 1 == h
  {
  }

  lemma FourBytes(u: nat)
    requires u < WORD
    ensures ToBits(u, 32) == ToBits(u / TOP, 8) + ToBits((u / 65536) % 256, 8) + ToBits((u / 256) % 256, 8)
            + ToBits(u % 256, 8)
  {
    hide Pow2, ToBits;
    Powers();
    LowByte(u, 24);
    LowByte(u / 256, 16);
    LowByte(u / 256 / 256, 8);
    assert u / 256 / 256 == u / 65536 && u / 65536 / 256 == u / TOP;
  }

  lemma LowByte(v: nat, m: nat)
    ensures ToBits(v, m + 8) == ToBits(v / 256, m) + ToBits(v % 256, 8)
  {
    hide Pow2, ToBits;
    Powers();
    SplitBits(v, m, 8);
    LowBits(v / 256, v % 256, 8, 8);
  }

  // ---- reading ----

  /** One more byte below the live bits; what overflows the word was not live. */
  lemma RefillBits(buff: nat, live: nat, c: Byte)
    requires buff < WORD && live <= 24
    ensures ToBits((buff * 256) % WORD + c, live + 8) == ToBits(buff, live) + ToBits(c, 8)
    ensures (buff * 256) % WORD + c < WORD
  {
    hide Pow2, ToBits;
    Powers();
    var h, r := buff / TOP, buff % TOP;
    QuotientIs(buff * 256, WORD, h, r * 256);
    LowByte(r * 256 + c, live);
    QuotientIs(r * 256 + c, 256, r, c);
    LowBits(h, r, 24, live);
  }

  /** The n bits taken from the live ones. */
  lemma TakeBits(buff: nat, live: nat, n: nat)
    requires n <= live
    ensures var v := (buff / Pow2(live - n)) % Pow2(n);
      v == Value(ToBits(buff, live)[..n]) && ToBits(buff, live)[n..] == ToBits(buff, live - n)
  {
    hide Pow2, ToBits;
    var q, p := buff / Pow2(live - n), Pow2(n);
    var h, r := q / p, q % p;
    SplitBits(buff, n, live - n);
    assert q == h * p + r;
    LowBits(h, r, n, n);
    ValueToBits(r, n);
    assert ToBits(buff, live)[..n] == ToBits(q, n);
  }

  /** What is left of the bits when some have been read from the front. */
  ghost predicate IsTail(tail: seq<bool>, all: seq<bool>) {
    |tail| <= |all| && tail == all[|all| - |tail|..]
  }

  lemma TailOfTail(tail: seq<bool>, all: seq<bool>, n: nat)
    requires IsTail(tail, all) && n <= |tail|
    ensures IsTail(tail[n..], all)
  {
  }

  class BitReader {
    var bsBuff: int
    var bsLive: int

    /** The input at hand, and what the caller is going to offer when it is used up. */
    var nextIn: seq<Byte>
    var later: seq<seq<Byte>>

    /** All of the input. */
    ghost const input: seq<bool>

    ghost predicate Valid()
      reads this
    {
      && 0 <= bsBuff < WORD && 0 <= bsLive <= 31
      && IsTail(ToBits(bsBuff, bsLive) + BytesToBits(nextIn + Flatten(later)), input)
    }

    /** What the input still holds. */
    ghost function Unread(): seq<bool>
      reads this
      requires Valid()
    {
      ToBits(bsBuff, bsLive) + BytesToBits(nextIn + Flatten(later))
    }

    lemma UnreadEndsInput()
      requires Valid()
      ensures IsTail(Unread(), input)
    {
      hide IsTail, ToBits, BytesToBits, Flatten;
    }

    /** The caller has input to offer, in pieces. */
    constructor (pieces: seq<seq<Byte>>)
      ensures Valid() && Unread() == input == BytesToBits(Flatten(pieces))
    {
      bsBuff, bsLive, nextIn, later := 0, 0, [], pieces;
      input := BytesToBits(Flatten(pieces));
      new;
      assert [] + Flatten(pieces) == Flatten(pieces);
      assert [] + BytesToBits(Flatten(pieces)) == BytesToBits(Flatten(pieces));
    }

    /** GET_BITS in one call: if the input at hand is used up before n bits are held, the call returns BZ_OK,
        and the bits that have come stay in the buffer for the next one. */
    method TryGet(n: int) returns (ok: bool, v: int)
      requires Valid() && 0 <= n <= 24
      modifies this
      ensures Valid() && later == old(later)
      ensures ok <==> old(bsLive) + 8 * |old(nextIn)| >= n
      ensures ok ==> n <= |old(Unread())| && v == Value(old(Unread())[..n]) && Unread() == old(Unread())[n..]
      ensures !ok ==> Unread() == old(Unread()) && nextIn == [] && bsLive == old(bsLive) + 8 * |old(nextIn)|
    {
      hide ToBits, BytesToBits, Pow2, Value, Flatten, IsTail;
      v := 0;
      while true
        invariant Valid() && Unread() == old(Unread()) && later == old(later)
        invariant bsLive + 8 * |nextIn| == old(bsLive) + 8 * |old(nextIn)|
        decreases |nextIn|
      {
        if bsLive >= n {
          TakeBits(bsBuff, bsLive, n);
          assert old(Unread())[..n] == ToBits(bsBuff, bsLive)[..n];
          TailOfTail(old(Unread()), input, n);
          assert old(Unread())[n..] == ToBits(bsBuff, bsLive)[n..] + BytesToBits(nextIn + Flatten(later));
          v := (bsBuff / Pow2(bsLive - n)) % Pow2(n);
          bsLive := bsLive - n;
          return true, v;
        }
        if |nextIn| == 0 { return false, v; }
        Refill();
      }
    }

    /** GET_BITS over as many calls as it takes: the next call, with the next piece of input, enters the switch
        at the case that s->state names, and tries again. So however the input is cut into pieces, the number
        read is the same, and reading fails only if all of it together is too short. */
    method Get(n: int) returns (ok: bool, v: int)
      requires Valid() && 0 <= n <= 24
      modifies this
      ensures Valid()
      ensures ok <==> |old(Unread())| >= n
      ensures ok ==> v == Value(old(Unread())[..n]) && Unread() == old(Unread())[n..]
      ensures !ok ==> Unread() == old(Unread()) && nextIn == [] && later == []
    {
      hide ToBits, BytesToBits, Pow2, Value, Flatten, IsTail;
      ok, v := TryGet(n);
      while !ok && later != []
        invariant Valid()
        invariant ok ==> n <= |old(Unread())| && v == Value(old(Unread())[..n]) && Unread() == old(Unread())[n..]
        invariant !ok ==> Unread() == old(Unread()) && nextIn == [] && bsLive < n
        decreases |later|
      {
        FirstPiece(later);
        nextIn, later := later[0], later[1..];
        ok, v := TryGet(n);
      }
      if !ok { FlattenNone<Byte>(); }
    }

    /** One more byte of the input at hand. */
    method Refill()
      requires Valid() && bsLive <= 23 && nextIn != []
      modifies this
      ensures Valid() && Unread() == old(Unread()) && nextIn == old(nextIn)[1..] && bsLive == old(bsLive) + 8
              && later == old(later)
    {
      hide ToBits, BytesToBits, Flatten, IsTail;
      RefillBits(bsBuff, bsLive, nextIn[0]);
      BytesHead(nextIn + Flatten(later));
      assert (nextIn + Flatten(later))[1..] == nextIn[1..] + Flatten(later)
             && (nextIn + Flatten(later))[0] == nextIn[0];
      ghost var live, byte, rest := ToBits(bsBuff, bsLive), ToBits(nextIn[0], 8),
          BytesToBits(nextIn[1..] + Flatten(later));
      assert live + (byte + rest) == (live + byte) + rest;
      bsBuff := (bsBuff * 256) % WORD + nextIn[0];
      bsLive := bsLive + 8;
      nextIn := nextIn[1..];
    }
  }

  lemma FirstPiece(pieces: seq<seq<Byte>>)
    requires pieces != []
    ensures [] + Flatten(pieces) == pieces[0] + Flatten(pieces[1..])
  {
    assert [] + Flatten(pieces) == Flatten(pieces);
  }

  lemma {:induction false} BytesConcat(s: seq<Byte>, t: seq<Byte>)
    ensures BytesToBits(s + t) == BytesToBits(s) + BytesToBits(t)
    decreases |t|
  {
    hide ToBits;
    if t == [] {
      assert s + t == s;
    } else {
      var front, last := t[..|t| - 1], t[|t| - 1];
      BytesConcat(s, front);
      assert s + t == (s + front) + [last];
      BytesAppend(s + front, last);
    }
  }
}
