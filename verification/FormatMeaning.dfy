/** What the bit format means, apart from how it is written and read: the numbers that mark header, blocks and trailer,
    the combined checksum, the length of a run, and the steps from one code length to the next. */
module FormatMeaning {
  import opened Permutations
  import opened Bits
  import opened BlockCrc
  import opened MoveToFront
  import opened BlockFormat
  import opened StreamFormat

  // ---- numbers that mark the parts ----

  /** The number whose decimal digits are the hexadecimal digits of the bytes. */
  function Decimal(bytes: seq<Byte>): nat {
    if bytes == [] then 0
    else 100 * Decimal(bytes[..|bytes| - 1]) + bytes[|bytes| - 1] / 16 * 10 + bytes[|bytes| - 1] % 16
  }

  lemma DecimalOf6(a: Byte, b: Byte, c: Byte, d: Byte, e: Byte, f: Byte)
    ensures Decimal([a, b, c, d, e, f]) ==
            100 * (100 * (100 * (100 * (100 * Tens(a) + Tens(b)) + Tens(c)) + Tens(d)) + Tens(e)) + Tens(f)
  {
    assert [a, b, c, d, e, f][..5] == [a, b, c, d, e] && [a, b, c, d, e][..4] == [a, b, c, d];
    assert [a, b, c, d][..3] == [a, b, c] && [a, b, c][..2] == [a, b] && [a, b][..1] == [a];
    assert Decimal([a]) == Tens(a);
    assert Decimal([a, b, c]) == 100 * (100 * Tens(a) + Tens(b)) + Tens(c);
    assert Decimal([a, b, c, d, e]) ==
           100 * (100 * (100 * (100 * Tens(a) + Tens(b)) + Tens(c)) + Tens(d)) + Tens(e);
  }

  function Tens(b: Byte): nat { b / 16 * 10 + b % 16 }

  /** A stream starts with the letters BZh and the digit of its level; a block with the first twelve digits of pi, and
      the trailer with those of the square root of pi. */
  lemma MagicNumbers(level: int)
    requires 1 <= level <= 9
    ensures HEADER_BYTES == ['B' as int, 'Z' as int, 'h' as int] && BZ_HDR_0 + level == "0123456789"[level] as int
    ensures var pi, root := Decimal(BLOCK_MAGIC), Decimal(END_MAGIC);
            pi == 314159265359 && root * root <= pi * 100000000000 < (root + 1) * (root + 1)
  {
    hide Decimal;
    DecimalOf6(0x31, 0x41, 0x59, 0x26, 0x53, 0x59);
    DecimalOf6(0x17, 0x72, 0x45, 0x38, 0x50, 0x90);
  }

  // ---- the combined checksum ----

  ghost function Rol(x: bv32): bv32 { x.RotateLeft(1) }

  ghost function Rotated(x: bv32, k: nat): bv32 {
    if k == 0 then x else Rol(Rotated(x, k - 1))
  }

  /** The exclusive-or of n sums, sum i rotated left n - 1 - i times, from sum i on. */
  ghost function RotatedSums(sums: seq<bv32>, i: nat): bv32
    requires i <= |sums|
    decreases |sums| - i
  {
    if i == |sums| then 0 else Xor(Rotated(sums[i], |sums| - 1 - i), RotatedSums(sums, i + 1))
  }

  ghost function Sums(blocks: seq<Sealed>): (r: seq<bv32>)
    ensures |r| == |blocks|
  {
    seq(|blocks|, i requires 0 <= i < |blocks| => BlockSum(blocks[i]))
  }

  lemma CombineRotates(x: bv32, y: bv32)
    ensures Combine(x, y) == Xor(Rol(x), y)
  {
  }

  function Turned(x: bv32): bv32 { (x << 1) | (x >> 31) }

  lemma RolIs(x: bv32)
    ensures Rol(x) == Turned(x)
  {
  }

  lemma TurnedSum(x: bv32, y: bv32)
    ensures Turned(Xor(x, y)) == Xor(Turned(x), Turned(y))
  {
  }

  lemma RotateSum(x: bv32, y: bv32)
    ensures Rol(Xor(x, y)) == Xor(Rol(x), Rol(y))
  {
    hide Rol, Xor, Turned;
    RolIs(x);
    RolIs(y);
    RolIs(Xor(x, y));
    TurnedSum(x, y);
  }

  lemma NothingRotated()
    ensures Rol(0) == 0
  {
  }

  lemma NothingAdded(x: bv32)
    ensures Xor(0, x) == Xor(x, 0) == x
  {
  }

  /** One more sum rotates all those before it. */
  lemma {:induction false} OneMoreSum(sums: seq<bv32>, s: bv32, i: nat)
    requires i <= |sums|
    ensures RotatedSums(sums + [s], i) == Combine(RotatedSums(sums, i), s)
    decreases |sums| - i
  {
    hide Xor, Combine, Rol;
    CombineRotates(RotatedSums(sums, i), s);
    if i == |sums| {
      NothingRotated();
      NothingAdded(s);
      assert RotatedSums(sums + [s], i + 1) == 0;
    } else {
      OneMoreSum(sums, s, i + 1);
      var x, rest := Rotated(sums[i], |sums| - 1 - i), RotatedSums(sums, i + 1);
      CombineRotates(rest, s);
      RotateSum(x, rest);
      XorAssociative(Rol(x), Rol(rest), s);
    }
  }

  lemma {:induction false} CombinedIs(blocks: seq<Sealed>)
    ensures Combined(blocks) == RotatedSums(Sums(blocks), 0)
  {
    hide Combine, BlockSum;
    if blocks != [] {
      var front, last := blocks[..|blocks| - 1], blocks[|blocks| - 1];
      CombinedIs(front);
      assert Sums(blocks) == Sums(front) + [BlockSum(last)];
      OneMoreSum(Sums(front), BlockSum(last), 0);
    }
  }

  // ---- runs ----

  /** The number that digits from the lowest up stand for, in base two with the digits 1 and 2. */
  ghost function RunLength(digits: seq<int>): int {
    if digits == [] then 0 else (if digits[0] == RUNA then 1 else 2) + 2 * RunLength(digits[1..])
  }

  lemma {:induction false} OneMoreDigit(digits: seq<int>, d: int)
    ensures RunLength(digits + [d]) == RunLength(digits) + Pow2(|digits|) * if d == RUNA then 1 else 2
  {
    if digits == [] {
      assert [d][1..] == [];
    } else {
      OneMoreDigit(digits[1..], d);
      assert (digits + [d])[1..] == digits[1..] + [d];
    }
  }

  /** The digits after the last other symbol count how often the front of the list is repeated. */
  lemma {:induction false} RunIs(list: seq<Byte>, syms: seq<int>, digits: seq<int>)
    requires Symbols(list, syms) && (syms == [] || syms[|syms| - 1] > RUNB)
    requires forall i | 0 <= i < |digits| :: digits[i] == RUNA || digits[i] == RUNB
    ensures Symbols(list, syms + digits)
    ensures var d, e := After(list, syms), After(list, syms + digits);
            e.run == RunLength(digits) && e.weight == Pow2(|digits|) && e.list == d.list && e.out == d.out
  {
    if digits == [] {
      assert syms + digits == syms;
    } else {
      var front, last := digits[..|digits| - 1], digits[|digits| - 1];
      RunIs(list, syms, front);
      AfterAppend(list, syms + front, last);
      assert syms + digits == syms + front + [last] && digits == front + [last];
      OneMoreDigit(front, last);
    }
  }

  // ---- code lengths ----

  /** As many pairs as the lengths differ, each saying that there is another step and whether it is down, and a zero. */
  lemma {:induction false} DeltaIs(c: int, t: int)
    ensures var n := if c < t then t - c else c - t;
            && |Delta(c, t)| == 2 * n + 1 && !Delta(c, t)[2 * n]
            && forall i | 0 <= i < n :: Delta(c, t)[2 * i] && Delta(c, t)[2 * i + 1] == (t < c)
    decreases if c < t then t - c else c - t
  {
    if c != t {
      var c' := if c < t then c + 1 else c - 1;
      var n := if c < t then t - c else c - t;
      DeltaIs(c', t);
      assert Delta(c, t) == [true, t < c] + Delta(c', t);
      forall i | 0 <= i < n ensures Delta(c, t)[2 * i] && Delta(c, t)[2 * i + 1] == (t < c) {
        if i > 0 {
          assert Delta(c, t)[2 * i] == Delta(c', t)[2 * (i - 1)];
          assert Delta(c, t)[2 * i + 1] == Delta(c', t)[2 * (i - 1) + 1];
        }
      }
    }
  }
}
