/** The block checksum: a CRC with polynomial 0x04c11db7, most significant bit first, updated a byte at a
    time from a table. */
module BlockCrc {
  import opened Permutations

  const POLYNOMIAL: bv32 := 0x04c11db7
  const INITIAL: bv32 := 0xffffffff

  function Xor(x: bv32, y: bv32): bv32 { x ^ y }

  function Double(x: bv32): bv32 { x << 1 }

  predicate Top(x: bv32) { x >> 31 == 1 }

  function Divisor(top: bool): bv32 { if top then POLYNOMIAL else 0 }

  /** Division by the polynomial, one bit. */
  function Shift(c: bv32): bv32 {
    Xor(Double(c), Divisor(Top(c)))
  }

  function Shifts(c: bv32, n: nat): bv32 {
    if n == 0 then c else Shift(Shifts(c, n - 1))
  }

  /** Entry i of the table: the remainder of byte i. */
  function Table(i: bv32): bv32 {
    Shifts(i << 24, 8)
  }

  /** BZ_UPDATE_CRC. */
  function Update(crc: bv32, ch: bv32): bv32 {
    Xor(crc << 8, Table(Xor(crc >> 24, ch)))
  }

  lemma TopXor(x: bv32, y: bv32)
    ensures Top(Xor(x, y)) == (Top(x) != Top(y))
  {
  }

  lemma DoubleXor(x: bv32, y: bv32)
    ensures Double(Xor(x, y)) == Xor(Double(x), Double(y))
  {
  }

  lemma DivisorXor(p: bool, q: bool)
    ensures Divisor(p != q) == Xor(Divisor(p), Divisor(q))
  {
  }

  lemma XorAssociative(a: bv32, b: bv32, c: bv32)
    ensures Xor(Xor(a, b), c) == Xor(a, Xor(b, c))
  {
  }

  lemma XorCommutative(a: bv32, b: bv32)
    ensures Xor(a, b) == Xor(b, a)
  {
  }

  lemma XorSwap(a: bv32, b: bv32, c: bv32, d: bv32)
    ensures Xor(Xor(a, b), Xor(c, d)) == Xor(Xor(a, c), Xor(b, d))
  {
    hide Xor;
    XorAssociative(a, b, Xor(c, d));
    XorAssociative(b, c, d);
    XorCommutative(b, c);
    XorAssociative(c, b, d);
    XorAssociative(a, c, Xor(b, d));
  }

  lemma ShiftLinear(x: bv32, y: bv32)
    ensures Shift(Xor(x, y)) == Xor(Shift(x), Shift(y))
  {
    hide Top, Xor, Double, Divisor;
    TopXor(x, y);
    DoubleXor(x, y);
    DivisorXor(Top(x), Top(y));
    XorSwap(Double(x), Divisor(Top(x)), Double(y), Divisor(Top(y)));
  }

  /** Taking remainders is linear. */
  lemma {:induction false} ShiftsLinear(x: bv32, y: bv32, n: nat)
    ensures Shifts(Xor(x, y), n) == Xor(Shifts(x, n), Shifts(y, n))
  {
    hide Xor, Shift;
    if n > 0 {
      ShiftsLinear(x, y, n - 1);
      ShiftLinear(Shifts(x, n - 1), Shifts(y, n - 1));
    }
  }

  lemma NoTops(c: bv32)
    requires c <= 0x00ff_ffff
    ensures !Top(c) && !Top(c << 1) && !Top(c << 2) && !Top(c << 3)
    ensures !Top(c << 4) && !Top(c << 5) && !Top(c << 6) && !Top(c << 7)
  {
  }

  lemma Doublings(c: bv32)
    ensures Double(c) == c << 1 && Double(c << 1) == c << 2 && Double(c << 2) == c << 3 && Double(c << 3) == c << 4
    ensures Double(c << 4) == c << 5 && Double(c << 5) == c << 6 && Double(c << 6) == c << 7 && Double(c << 7) == c << 8
  {
  }

  lemma ShiftDoubles(c: bv32)
    requires !Top(c)
    ensures Shift(c) == Double(c)
  {
  }

  lemma ShiftsStep(c: bv32, n: nat, d: bv32)
    requires Shifts(c, n) == d && !Top(d)
    ensures Shifts(c, n + 1) == Double(d)
  {
    hide Shift, Top, Double;
    ShiftDoubles(d);
  }

  /** The low three bytes are only moved up by eight divisions. */
  lemma LowBytesMoveUp(c: bv32)
    requires c <= 0x00ff_ffff
    ensures Shifts(c, 8) == c << 8
  {
    hide Shift, Top, Double;
    NoTops(c);
    Doublings(c);
    ShiftsStep(c, 0, c);
    ShiftsStep(c, 1, c << 1);
    ShiftsStep(c, 2, c << 2);
    ShiftsStep(c, 3, c << 3);
    ShiftsStep(c, 4, c << 4);
    ShiftsStep(c, 5, c << 5);
    ShiftsStep(c, 6, c << 6);
    ShiftsStep(c, 7, c << 7);
  }

  lemma SplitTop(crc: bv32, ch: bv32)
    requires ch <= 0xff
    ensures crc & 0x00ff_ffff <= 0x00ff_ffff && (crc & 0x00ff_ffff) << 8 == crc << 8
    ensures Xor(crc, ch << 24) == Xor(crc & 0x00ff_ffff, Xor(crc >> 24, ch) << 24)
  {
  }

  /** The table-driven step is eight single-bit divisions of the remainder extended by the byte. */
  lemma UpdateIsDivision(crc: bv32, ch: bv32)
    requires ch <= 0xff
    ensures Update(crc, ch) == Shifts(Xor(crc, ch << 24), 8)
  {
    hide Shifts, Xor;
    SplitTop(crc, ch);
    ShiftsLinear(crc & 0x00ff_ffff, Xor(crc >> 24, ch) << 24, 8);
    LowBytesMoveUp(crc & 0x00ff_ffff);
  }

  /** BZ_FINALISE_CRC. */
  function Finalise(crc: bv32): bv32 {
    !crc
  }

  /** The checksum of s, continuing from crc. */
  function CrcOf(crc: bv32, s: seq<Byte>): bv32 {
    if s == [] then crc else Update(CrcOf(crc, s[..|s| - 1]), s[|s| - 1] as bv32)
  }

  lemma CrcAppend(crc: bv32, s: seq<Byte>, c: Byte)
    ensures CrcOf(crc, s + [c]) == Update(CrcOf(crc, s), c as bv32)
  {
    hide Update;
    assert (s + [c])[..|s|] == s;
  }

  lemma {:induction false} CrcConcat(crc: bv32, s: seq<Byte>, t: seq<Byte>)
    ensures CrcOf(crc, s + t) == CrcOf(CrcOf(crc, s), t)
    decreases |t|
  {
    hide Update;
    if t == [] {
      assert s + t == s;
    } else {
      var t' := t[..|t| - 1];
      CrcConcat(crc, s, t');
      assert s + t == (s + t') + [t[|t| - 1]];
      CrcAppend(crc, s + t', t[|t| - 1]);
    }
  }

  /** The combined checksum of a stream after one more block. */
  function Combine(combined: bv32, block: bv32): bv32 {
    ((combined << 1) | (combined >> 31)) ^ block
  }
}
