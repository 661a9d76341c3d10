/** crc32_big: the same computation on a register kept byte-reversed, with byte-reversed tables. */
module Crc32Big {
  import opened Permutations
  import opened Bits
  import opened Gf2
  import opened Crc32

  /** ZSWAP32. */
  function Swap(x: nat): (s: nat)
    ensures s <= ONES
  {
    Word(x / 0x100_0000 % 256, x / 65536 % 256, x / 256 % 256, x % 256)
  }

  lemma SwapBytes(x: nat)
    ensures Swap(x) % 256 == x / 0x100_0000 % 256 && Swap(x) / 256 % 256 == x / 65536 % 256
    ensures Swap(x) / 65536 % 256 == x / 256 % 256 && Swap(x) / 0x100_0000 == x % 256
  {
    var b0, b1, b2, b3 := x / 0x100_0000 % 256, x / 65536 % 256, x / 256 % 256, x % 256;
    WordBytes(b0, b1, b2, b3);
  }

  lemma WordBytes(b0: Byte, b1: Byte, b2: Byte, b3: Byte)
    ensures var w := Word(b0, b1, b2, b3);
      w % 256 == b0 && w / 256 % 256 == b1 && w / 65536 % 256 == b2 && w / 0x100_0000 == b3
  {
    var w3: nat := b3;
    var w2: nat := b2 + 256 * w3;
    var w1: nat := b1 + 256 * w2;
    var w := Word(b0, b1, b2, b3);
    assert w == b0 + 256 * w1;
    assert w / 256 == w1 && w1 / 256 == w2 && w2 / 256 == w3;
    assert w / 65536 == w2 && w / 0x100_0000 == w3;
  }

  function Shl(h: nat, n: nat): nat {
    Pow2(n) * h
  }

  lemma QuotientNatural(x: nat, p: nat)
    requires p > 0
    ensures x / p >= 0
  {
  }

  function Hi(x: nat, n: nat): nat {
    var p := Pow2(n);
    QuotientNatural(x, p);
    x / p
  }

  function Lo(x: nat, n: nat): nat {
    x % Pow2(n)
  }

  /** Exclusive-or works on the upper and the lower bits separately. */
  lemma XorParts(x: nat, y: nat, n: nat)
    ensures Hi(Xor(x, y), n) == Xor(Hi(x, n), Hi(y, n))
    ensures Lo(Xor(x, y), n) == Xor(Lo(x, n), Lo(y, n))
  {
    hide Xor, Pow2, Shl, Hi, Lo;
    Whole(x, n);
    Whole(y, n);
    XorOfParts(x, Hi(x, n), Lo(x, n), y, Hi(y, n), Lo(y, n), n);
    XorBounded(Lo(x, n), Lo(y, n), n);
    PartsAre(Xor(x, y), Xor(Hi(x, n), Hi(y, n)), Xor(Lo(x, n), Lo(y, n)), n);
  }

  lemma Whole(x: nat, n: nat)
    ensures x == Shl(Hi(x, n), n) + Lo(x, n) && Lo(x, n) < Pow2(n)
  {
    hide Pow2;
  }

  lemma PartsAre(x: nat, h: nat, r: nat, n: nat)
    requires x == Shl(h, n) + r && r < Pow2(n)
    ensures Hi(x, n) == h && Lo(x, n) == r
  {
    hide Pow2;
    QuotientIs(x, Pow2(n), h, r);
  }

  lemma Disjoint(h: nat, r: nat, n: nat)
    requires r < Pow2(n)
    ensures Xor(Shl(h, n), r) == Shl(h, n) + r
  {
    hide Xor, Pow2;
    assert Shl(h, n) == h * Pow2(n);
    XorDisjoint(h, r, n);
  }

  lemma XorOfParts(x: nat, h: nat, r: nat, y: nat, h': nat, r': nat, n: nat)
    requires x == Shl(h, n) + r && y == Shl(h', n) + r' && r < Pow2(n) && r' < Pow2(n)
    ensures Xor(x, y) == Shl(Xor(h, h'), n) + Xor(r, r')
  {
    hide Xor, Pow2, Shl;
    Disjoint(h, r, n);
    Disjoint(h', r', n);
    XorSwap(Shl(h, n), r, Shl(h', n), r');
    XorShl(h, h', n);
    XorBounded(r, r', n);
    Disjoint(Xor(h, h'), Xor(r, r'), n);
  }

  lemma XorShl(h: nat, h': nat, n: nat)
    ensures Xor(Shl(h, n), Shl(h', n)) == Shl(Xor(h, h'), n)
  {
    hide Xor, Pow2;
    XorScaled(h, h', n);
  }

  lemma {:induction false} XorScaled(h: nat, h': nat, n: nat)
    ensures Xor(h * Pow2(n), h' * Pow2(n)) == Xor(h, h') * Pow2(n)
  {
    hide Xor;
    if n == 0 {
      assert h * Pow2(0) == h && h' * Pow2(0) == h' && Xor(h, h') * Pow2(0) == Xor(h, h');
    } else {
      var p := Pow2(n - 1);
      XorScaled(h, h', n - 1);
      Regroup(h, p);
      Regroup(h', p);
      Regroup(Xor(h, h'), p);
      XorHalves(2 * (h * p), 2 * (h' * p));
    }
  }

  /** The bytes of a register. */
  function ByteOf(x: nat, i: nat): Byte {
    x / Pow2(8 * i) % 256
  }

  lemma ByteXor(x: nat, y: nat, i: nat)
    ensures ByteOf(Xor(x, y), i) == Xor(ByteOf(x, i), ByteOf(y, i))
  {
    hide Xor, Pow2;
    Word32();
    XorParts(x, y, 8 * i);
    XorParts(Hi(x, 8 * i), Hi(y, 8 * i), 8);
  }

  lemma ByteValues(x: nat)
    ensures ByteOf(x, 0) == x % 256 && ByteOf(x, 1) == x / 256 % 256
    ensures ByteOf(x, 2) == x / 65536 % 256 && ByteOf(x, 3) == x / 0x100_0000 % 256
  {
    hide Pow2;
    Word32();
    assert Pow2(0) == 1 by { Pow2Of1(); }
  }

  lemma WordXor(a0: Byte, a1: Byte, a2: Byte, a3: Byte, b0: Byte, b1: Byte, b2: Byte, b3: Byte)
    ensures Xor(a0, b0) < 256 && Xor(a1, b1) < 256 && Xor(a2, b2) < 256 && Xor(a3, b3) < 256
    ensures Xor(Word(a0, a1, a2, a3), Word(b0, b1, b2, b3)) == Word(Xor(a0, b0), Xor(a1, b1), Xor(a2, b2), Xor(a3, b3))
  {
    hide Xor, Word, ByteOf;
    Word32();
    XorBounded(a0, b0, 8);
    XorBounded(a1, b1, 8);
    XorBounded(a2, b2, 8);
    XorBounded(a3, b3, 8);
    var v, w := Word(a0, a1, a2, a3), Word(b0, b1, b2, b3);
    var z := Xor(v, w);
    XorBounded(v, w, 32);
    BytesOfWord(a0, a1, a2, a3);
    BytesOfWord(b0, b1, b2, b3);
    ByteXor(v, w, 0);
    ByteXor(v, w, 1);
    ByteXor(v, w, 2);
    ByteXor(v, w, 3);
    WordOfBytes(z);
  }

  lemma BytesOfWord(b0: Byte, b1: Byte, b2: Byte, b3: Byte)
    ensures var w := Word(b0, b1, b2, b3);
            ByteOf(w, 0) == b0 && ByteOf(w, 1) == b1 && ByteOf(w, 2) == b2 && ByteOf(w, 3) == b3
  {
    hide Word, ByteOf;
    var w := Word(b0, b1, b2, b3);
    ByteValues(w);
    WordBytes(b0, b1, b2, b3);
  }

  lemma WordOfBytes(z: nat)
    requires z <= ONES
    ensures z == Word(ByteOf(z, 0), ByteOf(z, 1), ByteOf(z, 2), ByteOf(z, 3))
  {
    hide ByteOf;
    ByteValues(z);
    var z1, z2, z3 := z / 256, z / 65536, z / 0x100_0000;
    assert z == 256 * z1 + z % 256 && z1 / 256 == z2 && z2 / 256 == z3;
    assert z1 == 256 * z2 + z1 % 256 && z2 == 256 * z3 + z2 % 256;
  }

  /** Reversing the bytes is linear. */
  lemma SwapXor(x: nat, y: nat)
    ensures Swap(Xor(x, y)) == Xor(Swap(x), Swap(y))
  {
    hide Xor, Word, ByteOf;
    ByteXor(x, y, 0);
    ByteXor(x, y, 1);
    ByteXor(x, y, 2);
    ByteXor(x, y, 3);
    ByteValues(x);
    ByteValues(y);
    ByteValues(Xor(x, y));
    WordXor(ByteOf(x, 3), ByteOf(x, 2), ByteOf(x, 1), ByteOf(x, 0), ByteOf(y, 3), ByteOf(y, 2), ByteOf(y, 1),
            ByteOf(y, 0));
  }

  lemma SwapTwice(x: nat)
    requires x <= ONES
    ensures Swap(Swap(x)) == x
  {
    hide Swap, ByteOf;
    SwapBytes(x);
    SwapIs(Swap(x));
    WordOfBytes(x);
    ByteValues(x);
    assert x / 0x100_0000 < 256;
  }

  lemma SwapIs(x: nat)
    ensures Swap(x) == Word(x / 0x100_0000 % 256, x / 65536 % 256, x / 256 % 256, x % 256)
  {
  }

  lemma SwapOnes()
    ensures Swap(ONES) == ONES
  {
    assert ONES / 0x100_0000 == 255 && ONES / 65536 % 256 == 255 && ONES / 256 % 256 == 255 && ONES % 256 == 255;
    assert Word(255, 255, 255, 255) == ONES;
  }

  /** Shifting the reversed register up is shifting the register down. */
  lemma SwapShift(c: nat)
    requires c <= ONES
    ensures Swap(c) * 256 % (ONES + 1) == Swap(c / 256)
  {
    hide Word;
    var b0, b1, b2, b3 := c % 256, c / 256 % 256, c / 65536 % 256, c / 0x100_0000 % 256;
    ShiftedWord(b3, b2, b1, b0);
    var d := c / 256;
    assert d % 256 == b1 && d / 256 == c / 65536 && d / 65536 == c / 0x100_0000 && d / 0x100_0000 == 0;
  }

  lemma ShiftedWord(b0: Byte, b1: Byte, b2: Byte, b3: Byte)
    ensures Word(b0, b1, b2, b3) * 256 % (ONES + 1) == Word(0, b0, b1, b2)
  {
    assert Word(b0, b1, b2, b3) * 256 == b3 * (ONES + 1) + Word(0, b0, b1, b2);
  }

  // ---- the steps ----

  ghost predicate IsSwappedTables(tables: array2<nat>)
    reads tables
  {
    && tables.Length0 == 4 && tables.Length1 == 256
    && forall k, n | 0 <= k < 4 && 0 <= n < 256 :: tables[k, n] == Swap(Entry(k, n))
  }

  method SwapTables(tables: array2<nat>, swapped: array2<nat>)
    requires IsTables(tables) && swapped.Length0 == 4 && swapped.Length1 == 256 && tables != swapped
    modifies swapped
    ensures IsSwappedTables(swapped)
  {
    hide Swap, Entry;
    for k := 0 to 4
      invariant forall j, n | 0 <= j < k && 0 <= n < 256 :: swapped[j, n] == Swap(Entry(j, n))
    {
      for n := 0 to 256
        invariant forall j, m | 0 <= j < k && 0 <= m < 256 :: swapped[j, m] == Swap(Entry(j, m))
        invariant forall m | 0 <= m < n :: swapped[k, m] == Swap(Entry(k, m))
      {
        swapped[k, n] := Swap(tables[k, n]);
      }
    }
  }

  /** One byte. */
  method OneByteBig(tables: array2<nat>, s0: nat, b: Byte, ghost c: nat) returns (s: nat)
    requires IsSwappedTables(tables) && c <= ONES && s0 == Swap(c)
    ensures s == Swap(Update(c, b)) && Update(c, b) <= ONES
  {
    hide Xor, Entry, Update, Swap;
    Word32();
    ByteStep(c, b);
    SwapBytes(c);
    SwapShift(c);
    XorParts(c, b, 8);
    XorBounded(c % 256, b, 8);
    SwapXor(Entry(0, Xor(c, b) % 256), c / 256);
    s := Xor(tables[0, Xor(s0 / 0x100_0000, b)], s0 * 256 % (ONES + 1));
  }

  /** DOBIG4. */
  method FourBytesBig(tables: array2<nat>, s0: nat, b0: Byte, b1: Byte, b2: Byte, b3: Byte, ghost c: nat)
    returns (s: nat)
    requires IsSwappedTables(tables) && c <= ONES && s0 == Swap(c)
    ensures s == Swap(Register(c, [b0, b1, b2, b3])) && Register(c, [b0, b1, b2, b3]) <= ONES
  {
    hide Xor, Entry, Lookup4, Word, Register, Swap;
    WordIsBytes(c, b0, b1, b2, b3);
    RegisterBounded(c, [b0, b1, b2, b3]);
    ghost var w := Word(b0, b1, b2, b3);
    ghost var x := Xor(c, w);
    BigWord(b0, b1, b2, b3);
    SwapXor(c, w);
    s := Xor(s0, Word(b3, b2, b1, b0));
    SwapBytes(x);
    Lookup4Is(x);
    var t3, t2, t1, t0 := tables[0, s % 256], tables[1, s / 256 % 256], tables[2, s / 65536 % 256],
        tables[3, s / 0x100_0000];
    SwappedLookup(Entry(3, x % 256), Entry(2, x / 256 % 256), Entry(1, x / 65536 % 256), Entry(0, x / 0x100_0000));
    assert x / 0x100_0000 % 256 == x / 0x100_0000;
    s := Xor(Xor(Xor(t3, t2), t1), t0);
    Reversed4(t3, t2, t1, t0);
  }

  lemma BigWord(b0: Byte, b1: Byte, b2: Byte, b3: Byte)
    ensures Swap(Word(b0, b1, b2, b3)) == Word(b3, b2, b1, b0)
  {
    hide Word;
    WordBytes(b0, b1, b2, b3);
  }

  lemma SwappedLookup(e3: nat, e2: nat, e1: nat, e0: nat)
    ensures Swap(Xor(Xor(Xor(e3, e2), e1), e0)) == Xor(Xor(Xor(Swap(e3), Swap(e2)), Swap(e1)), Swap(e0))
  {
    hide Xor, Swap;
    SwapXor(Xor(Xor(e3, e2), e1), e0);
    SwapXor(Xor(e3, e2), e1);
    SwapXor(e3, e2);
  }

  lemma Reversed4(a: nat, b: nat, c: nat, d: nat)
    ensures Xor(Xor(Xor(a, b), c), d) == Xor(Xor(Xor(d, c), b), a)
  {
    hide Xor;
    XorAssociates(Xor(a, b), c, d);
    XorCommutes(Xor(a, b), Xor(c, d));
    XorCommutes(a, b);
    XorCommutes(c, d);
    XorAssociates(Xor(d, c), b, a);
  }

  /** crc32_big gives what the byte loop gives. */
  method Crc32Big(tables: array2<nat>, crc: nat, buf: seq<Byte>, address: nat) returns (r: nat)
    requires IsSwappedTables(tables) && crc <= ONES
    ensures r == Crc(crc, buf)
  {
    hide Xor, Update, IsSwappedTables, Register, Swap, Word, Pow2;
    Word32();
    XorBounded(crc, ONES, 32);
    SwapXor(crc, ONES);
    SwapOnes();
    var s := Xor(Swap(crc), ONES);
    ghost var c0 := Xor(crc, ONES);
    var i := 0;
    AtBothEnds(c0, buf);
    while i < |buf| && (address + i) % 4 != 0
      invariant 0 <= i <= |buf| && s == Swap(Register(c0, buf[..i])) && Register(c0, buf[..i]) <= ONES
    {
      OneFurther(c0, buf, i);
      s := OneByteBig(tables, s, buf[i], Register(c0, buf[..i]));
      i := i + 1;
    }
    while |buf| - i >= 4
      invariant 0 <= i <= |buf| && s == Swap(Register(c0, buf[..i])) && Register(c0, buf[..i]) <= ONES
    {
      FourFurther(c0, buf, i);
      s := FourBytesBig(tables, s, buf[i], buf[i + 1], buf[i + 2], buf[i + 3], Register(c0, buf[..i]));
      i := i + 4;
    }
    while i < |buf|
      invariant 0 <= i <= |buf| && s == Swap(Register(c0, buf[..i])) && Register(c0, buf[..i]) <= ONES
    {
      OneFurther(c0, buf, i);
      s := OneByteBig(tables, s, buf[i], Register(c0, buf[..i]));
      i := i + 1;
    }
    ghost var c := Register(c0, buf);
    SwapXor(s, ONES);
    SwapTwice(c);
    r := Swap(Xor(s, ONES));
  }

  /** crc32: the tables are made, and the form for the byte order of the machine is taken. */
  method ChecksumOn(littleEndian: bool, crc: nat, buf: seq<Byte>, address: nat) returns (r: nat)
    requires crc <= ONES
    ensures r == Crc(crc, buf)
  {
    hide Entry, Swap, Crc;
    var tables := new nat[4, 256];
    MakeTables(tables);
    if littleEndian {
      r := Crc32Little(tables, crc, buf, address);
    } else {
      var swapped := new nat[4, 256];
      SwapTables(tables, swapped);
      r := Crc32Big(swapped, crc, buf, address);
    }
  }
}
