/** What a block checksum is: the complement of the remainder, modulo the polynomial of the gzip checksum, of the input
    with the most significant bits first. */
module BlockCrcRemainder {
  import opened Permutations
  import opened Bits
  import opened Gf2
  import opened Polynomials
  import opened CrcRemainder
  import opened ReversedBits
  import opened Crc32
  import B = BlockCrc

  /** The number, or polynomial, that the top n bits of x are. */
  ghost function Number(x: bv32, n: nat): (r: nat)
    ensures r < Pow2(n)
    decreases n
  {
    if n == 0 then 0 else (if B.Top(x) then Pow2(n - 1) else 0) + Number(B.Double(x), n - 1)
  }

  function Doubles(x: bv32, n: nat): bv32
    decreases n
  {
    if n == 0 then x else Doubles(B.Double(x), n - 1)
  }

  /** A byte, on top of the register. */
  function OnTop(b: Byte): bv32 { (b as bv32) << 24 }

  function Shl8(x: bv32): bv32 { x << 8 }

  /** The polynomial of an input: the bits of the bytes from the highest down. */
  ghost function Message(s: seq<Byte>): nat {
    if s == [] then 0 else Up(Message(s[..|s| - 1]), 8) + s[|s| - 1]
  }

  lemma NumberStep(x: bv32, n: nat)
    requires n > 0
    ensures Number(x, n) == (if B.Top(x) then Pow2(n - 1) else 0) + Number(B.Double(x), n - 1)
  {
    hide Pow2, B.Top, B.Double;
  }

  lemma NumberOfNothing(x: bv32)
    ensures Number(x, 0) == 0
  {
  }

  lemma {:induction false} NumberOfZero(n: nat)
    ensures Number(0, n) == 0
  {
    if n > 0 { NumberOfZero(n - 1); }
  }

  lemma {:induction false} NumberSum(x: bv32, y: bv32, n: nat)
    ensures Number(B.Xor(x, y), n) == Xor(Number(x, n), Number(y, n))
    decreases n
  {
    hide Xor, Pow2, Number, B.Xor, B.Top, B.Double;
    if n == 0 {
      NumberOfNothing(x);
      NumberOfNothing(y);
      NumberOfNothing(B.Xor(x, y));
      XorZero(0);
    } else {
      NumberStep(x, n);
      NumberStep(y, n);
      NumberStep(B.Xor(x, y), n);
      B.TopXor(x, y);
      B.DoubleXor(x, y);
      NumberSum(B.Double(x), B.Double(y), n - 1);
      TopBits(if B.Top(x) then 1 else 0, if B.Top(y) then 1 else 0, Number(B.Double(x), n - 1),
              Number(B.Double(y), n - 1), n - 1);
    }
  }

  /** The top n + k bits are the top n bits and the next k. */
  lemma {:induction false} NumberSplit(x: bv32, n: nat, k: nat)
    ensures Number(x, n + k) == Up(Number(x, n), k) + Number(Doubles(x, n), k)
    decreases n
  {
    hide Pow2, Number, B.Top, B.Double;
    if n == 0 {
      NumberOfNothing(x);
    } else {
      NumberSplit(B.Double(x), n - 1, k);
      NumberStep(x, n);
      NumberStep(x, n + k);
      Pow2Add(n - 1, k);
      Distribute(Pow2(n - 1), Number(B.Double(x), n - 1), Pow2(k));
    }
  }

  lemma Distribute(a: int, b: int, c: int)
    ensures (a + b) * c == a * c + b * c
  {
  }

  lemma EightIsShl8(x: bv32)
    ensures B.Double(B.Double(B.Double(B.Double(B.Double(B.Double(B.Double(B.Double(x)))))))) == Shl8(x)
  {
  }

  lemma DoublesStep(x: bv32, n: nat)
    requires n > 0
    ensures Doubles(x, n) == Doubles(B.Double(x), n - 1)
  {
    hide B.Double;
  }

  lemma EightDoubles(x: bv32, n: nat)
    requires n >= 8
    ensures Doubles(x, n) == Doubles(Shl8(x), n - 8)
  {
    hide B.Double, Doubles, Shl8;
    var x1 := B.Double(x);
    var x2 := B.Double(x1);
    var x3 := B.Double(x2);
    var x4 := B.Double(x3);
    var x5 := B.Double(x4);
    var x6 := B.Double(x5);
    var x7 := B.Double(x6);
    DoublesStep(x, n);
    DoublesStep(x1, n - 1);
    DoublesStep(x2, n - 2);
    DoublesStep(x3, n - 3);
    DoublesStep(x4, n - 4);
    DoublesStep(x5, n - 5);
    DoublesStep(x6, n - 6);
    DoublesStep(x7, n - 7);
    EightIsShl8(x);
  }

  lemma NoDoubles(x: bv32)
    ensures Doubles(x, 0) == x
  {
  }

  /** After 32 doublings nothing is left. */
  lemma AllDoubled(x: bv32)
    ensures Doubles(x, 32) == 0
  {
    hide Doubles, Shl8;
    EightDoubles(x, 32);
    EightDoubles(Shl8(x), 24);
    EightDoubles(Shl8(Shl8(x)), 16);
    EightDoubles(Shl8(Shl8(Shl8(x))), 8);
    NoDoubles(Shl8(Shl8(Shl8(Shl8(x)))));
    AllShifted(x);
  }

  lemma AllShifted(x: bv32)
    ensures Shl8(Shl8(Shl8(Shl8(x)))) == 0
  {
  }

  lemma UpOnce(a: nat)
    ensures Up(a, 1) == 2 * a
  {
    Pow2Of1();
  }

  /** Doubling loses the top bit. */
  lemma NumberDoubled(x: bv32)
    ensures Up(Number(x, 32), 1) == (if B.Top(x) then Pow2(32) else 0) + Number(B.Double(x), 32)
  {
    hide Pow2, Number, Doubles, Up, B.Top, B.Double;
    UpOnce(Number(x, 32));
    UpOnce(Number(B.Double(x), 31));
    NumberSplit(B.Double(x), 31, 1);
    AllDoubled(x);
    DoublesStep(x, 32);
    NumberOfZero(1);
    NumberStep(x, 32);
    Pow2Step(31);
  }

  // ---- division steps are multiplications by x ----

  /** Reading four bits. */
  lemma FourBits(x: bv32, n: nat)
    requires n >= 4
    ensures Number(x, n) == Up(Digit(x), n - 4) + Number(Four(x), n - 4)
  {
    hide Pow2, Number, Digit, Four, Up, B.Top, B.Double;
    var x1 := B.Double(x);
    var x2 := B.Double(x1);
    var x3 := B.Double(x2);
    NumberStep(x, n);
    NumberStep(x1, n - 1);
    NumberStep(x2, n - 2);
    NumberStep(x3, n - 3);
    Pow2Step(n - 4);
    Pow2Step(n - 3);
    Pow2Step(n - 2);
    DigitWeighs(x, n - 4);
  }

  lemma DigitWeighs(x: bv32, k: nat)
    ensures var p := Pow2(k);
            Up(Digit(x), k) == (if B.Top(x) then 8 * p else 0) + (if B.Top(B.Double(x)) then 4 * p else 0)
              + (if B.Top(B.Double(B.Double(x))) then 2 * p else 0)
              + (if B.Top(B.Double(B.Double(B.Double(x)))) then p else 0)
    ensures Four(x) == B.Double(B.Double(B.Double(B.Double(x))))
  {
    hide Pow2, B.Top, B.Double;
  }

  ghost function Four(x: bv32): bv32 { B.Double(B.Double(B.Double(B.Double(x)))) }

  ghost function Digit(x: bv32): nat {
    (if B.Top(x) then 8 else 0) + (if B.Top(B.Double(x)) then 4 else 0)
    + (if B.Top(B.Double(B.Double(x))) then 2 else 0) + if B.Top(B.Double(B.Double(B.Double(x)))) then 1 else 0
  }

  lemma NumberIs()
    ensures Number(B.POLYNOMIAL, 32) == 0x04c1_1db7
  {
    hide Number, Pow2;
    PowersTo32();
    FourBits(0x04c1_1db7, 32);
    FourBits(0x4c11_db70, 28);
    FourBits(0xc11d_b700, 24);
    FourBits(0x11db_7000, 20);
    FourBits(0x1db7_0000, 16);
    FourBits(0xdb70_0000, 12);
    FourBits(0xb700_0000, 8);
    FourBits(0x7000_0000, 4);
    NumberOfNothing(0);
  }

  lemma ReverseBit(v: nat, a: nat, n: nat)
    requires a < 2
    ensures Reverse(2 * v + a, n + 1) == (if a == 1 then Pow2(n) else 0) + Reverse(v, n)
  {
    hide Pow2, Reverse;
    ReverseDouble(v, n);
  }

  lemma {:induction false} ReverseFour(v: nat, a: nat, b: nat, c: nat, d: nat, rest: nat, n: nat)
    requires n >= 4 && a < 2 && b < 2 && c < 2 && d < 2 && v == 16 * rest + 8 * d + 4 * c + 2 * b + a
    ensures Reverse(v, n) == (8 * a + 4 * b + 2 * c + d) * Pow2(n - 4) + Reverse(rest, n - 4)
  {
    hide Pow2, Reverse;
    ReverseBit(rest, d, n - 4);
    ReverseBit(2 * rest + d, c, n - 3);
    ReverseBit(4 * rest + 2 * d + c, b, n - 2);
    ReverseBit(8 * rest + 4 * d + 2 * c + b, a, n - 1);
    Pow2Step(n - 4);
    Pow2Step(n - 3);
    Pow2Step(n - 2);
    Weights(a, b, c, d, Pow2(n - 4));
  }

  lemma Weights(a: nat, b: nat, c: nat, d: nat, p: nat)
    requires a < 2 && b < 2 && c < 2 && d < 2
    ensures (8 * a + 4 * b + 2 * c + d) * p ==
            (if a == 1 then 8 * p else 0) + (if b == 1 then 4 * p else 0) + (if c == 1 then 2 * p else 0)
            + if d == 1 then p else 0
  {
  }

  lemma ReverseIs()
    ensures Reverse(POLY, 32) == 0x04c1_1db7
  {
    hide Pow2, Reverse;
    PowersTo32();
    ReverseFour(0xedb8_8320, 0, 0, 0, 0, 0xedb_8832, 32);
    ReverseFour(0xedb_8832, 0, 1, 0, 0, 0xed_b883, 28);
    ReverseFour(0xed_b883, 1, 1, 0, 0, 0xe_db88, 24);
    ReverseFour(0xe_db88, 0, 0, 0, 1, 0xedb8, 20);
    ReverseFour(0xedb8, 0, 0, 0, 1, 0xedb, 16);
    ReverseFour(0xedb, 1, 1, 0, 1, 0xed, 12);
    ReverseFour(0xed, 1, 0, 1, 1, 0xe, 8);
    ReverseFour(0xe, 0, 1, 1, 1, 0, 4);
    ReverseNothing(0);
  }

  /** The polynomial is that of the gzip checksum. */
  lemma NumberOfPolynomial()
    ensures Polynomial() == Xor(Number(B.POLYNOMIAL, 32), Pow2(32))
  {
    hide Number, Polynomial, Xor, Pow2, Reverse;
    NumberIs();
    ReverseIs();
    PolynomialIs();
  }

  lemma StepMultiplies(c: bv32)
    ensures Congruent(Up(Number(c, 32), 1), Number(B.Shift(c), 32), Polynomial())
  {
    hide Xor, Pow2, Polynomial, Congruent, Number, Up, B.Top, B.Double, B.Xor;
    var d, p := Number(B.Double(c), 32), Polynomial();
    NumberDoubled(c);
    NumberSum(B.Double(c), B.Divisor(B.Top(c)), 32);
    if B.Top(c) {
      NumberOfPolynomial();
      XorDisjoint(1, d, 32);
      XorCommutes(Number(B.POLYNOMIAL, 32), Pow2(32));
      XorSwap(Pow2(32), d, Pow2(32), Number(B.POLYNOMIAL, 32));
      XorSelf(Pow2(32));
      XorZero(Number(B.Shift(c), 32));
      CongruentLess(Up(Number(c, 32), 1), p);
    } else {
      NumberOfZero(32);
      XorZero(d);
      CongruentSelf(d, p);
    }
  }

  lemma {:induction false} StepsMultiply(c: bv32, n: nat)
    ensures Congruent(Up(Number(c, 32), n), Number(B.Shifts(c, n), 32), Polynomial())
  {
    hide Xor, Pow2, Polynomial, Congruent, Number, B.Shift;
    var p := Polynomial();
    if n == 0 {
      Pow2Of1();
      CongruentSelf(Number(c, 32), p);
    } else {
      StepsMultiply(c, n - 1);
      var d := B.Shifts(c, n - 1);
      CongruentShift(Number(c, 32) * Pow2(n - 1), Number(d, 32), 1, p);
      StepMultiplies(d);
      CongruentTrans(Number(c, 32) * Pow2(n - 1) * Pow2(1), Number(d, 32) * Pow2(1), Number(B.Shift(d), 32), p);
      Pow2Add(n - 1, 1);
      Together(Number(c, 32), Pow2(n - 1), Pow2(1));
    }
  }

  // ---- inputs ----

  lemma ByteFits(b: Byte)
    ensures b as bv32 <= 0xff
  {
  }

  lemma ByteOnTop(b: Byte)
    ensures Number(OnTop(b), 32) == Up(Number(OnTop(b), 8), 24)
  {
    hide Number, Pow2, OnTop, Shl8;
    var x := OnTop(b);
    NumberSplit(x, 8, 24);
    EightDoubles(x, 8);
    NoDoubles(Shl8(x));
    OnlyByte(b);
    NumberOfZero(24);
  }

  lemma OnlyByte(b: Byte)
    ensures Shl8(OnTop(b)) == 0
  {
    ByteFits(b);
  }

  lemma NextByte(x: bv8)
    requires x as int < 255
    ensures (x + 1) as int == x as int + 1
  {
  }

  lemma BackAgain(x: bv8)
    ensures (x as int) as bv8 == x
  {
  }

  lemma {:induction false} BitsOf(b: nat) returns (x: bv8)
    requires b < 256
    ensures x as int == b
  {
    if b == 0 {
      x := 0;
    } else {
      var y := BitsOf(b - 1);
      NextByte(y);
      x := y + 1;
    }
  }

  lemma InEightBits(b: Byte)
    ensures (b as bv8) as int == b
  {
    var x := BitsOf(b);
    BackAgain(x);
  }

  lemma WidenedByte(b: Byte)
    ensures (b as bv8) as bv32 == b as bv32
  {
  }

  lemma Widened(x: bv8)
    ensures (x as bv32) as int == x as int
  {
  }

  /** The byte, read from the highest bit down. */
  lemma NumberOfByte(b: Byte)
    ensures Number(OnTop(b), 8) == b
  {
    hide Number, OnTop, Four, Digit, Pow2;
    PowersTo32();
    FourBits(OnTop(b), 8);
    FourBits(Four(OnTop(b)), 4);
    NumberOfNothing(Four(Four(OnTop(b))));
    ByteFits(b);
    OnTopIs(b);
    TopDigits(b as bv32, OnTop(b));
    InEightBits(b);
    WidenedByte(b);
    Widened(b as bv8);
  }

  lemma OnTopIs(b: Byte)
    ensures OnTop(b) == (b as bv32) << 24
  {
  }

  lemma TopDigits(x: bv32, y: bv32)
    requires x <= 0xff && y == x << 24
    ensures x as int == 16 * Digit(y) + Digit(Four(y))
  {
  }

  /** What the register stands for: the input times x^32, and the starting value in front of it. */
  ghost function Fed(c0: bv32, s: seq<Byte>): nat {
    Xor(Up(Message(s), 32), Up(Number(c0, 32), 8 * |s|))
  }

  lemma FedMore(c0: bv32, s: seq<Byte>, b: Byte)
    ensures Fed(c0, s + [b]) == Xor(Up(Fed(c0, s), 8), Up(b, 32))
  {
    hide Xor, Number, Pow2;
    assert (s + [b])[..|s|] == s;
    PowersTo32();
    Feed(Message(s), Number(c0, 32), b, 8 * |s|);
  }

  lemma ByteMultiplies(c: bv32, b: Byte)
    ensures Congruent(Xor(Up(Number(c, 32), 8), Up(b, 32)),
                      Number(B.Update(c, b as bv32), 32), Polynomial())
  {
    hide Xor, Number, Pow2, Polynomial, Congruent, B.Shifts, B.Update, B.Xor;
    var x := OnTop(b);
    ByteFits(b);
    ByteOnTop(b);
    NumberOfByte(b);
    B.UpdateIsDivision(c, b as bv32);
    StepsMultiply(B.Xor(c, x), 8);
    NumberSum(c, x, 32);
    Together(Number(x, 8), Pow2(24), Pow2(8));
    Pow2Add(24, 8);
    XorShift(Number(c, 32), Number(x, 8) * Pow2(24), 8);
  }

  lemma {:induction false} RegisterRemains(c0: bv32, s: seq<Byte>)
    ensures Congruent(Fed(c0, s), Number(B.CrcOf(c0, s), 32), Polynomial())
  {
    hide Xor, Number, Pow2, Polynomial, Congruent, Fed, B.Update;
    var p := Polynomial();
    if s == [] {
      FedNothing(c0);
      CongruentSelf(Number(c0, 32), p);
    } else {
      var front, b := s[..|s| - 1], s[|s| - 1];
      assert s == front + [b];
      RegisterRemains(c0, front);
      var c, y := B.CrcOf(c0, front), Up(b, 32);
      FedMore(c0, front, b);
      CongruentShift(Fed(c0, front), Number(c, 32), 8, p);
      CongruentSum(Up(Fed(c0, front), 8), Up(Number(c, 32), 8), y, p);
      ByteMultiplies(c, b);
      CongruentTrans(Fed(c0, s), Xor(Up(Number(c, 32), 8), y), Number(B.Update(c, b as bv32), 32), p);
    }
  }

  lemma FedNothing(c0: bv32)
    ensures Fed(c0, []) == Number(c0, 32)
  {
    hide Xor, Number;
    Pow2Of1();
    XorZero(Number(c0, 32));
  }

  lemma NumberOfOnes()
    ensures Number(0xffff_ffff, 32) == ONES
  {
    hide Number, Pow2;
    PowersTo32();
    FourBits(0xffff_ffff, 32);
    FourBits(0xffff_fff0, 28);
    FourBits(0xffff_ff00, 24);
    FourBits(0xffff_f000, 20);
    FourBits(0xffff_0000, 16);
    FourBits(0xfff0_0000, 12);
    FourBits(0xff00_0000, 8);
    FourBits(0xf000_0000, 4);
    NumberOfNothing(0);
  }

  lemma Complemented(c: bv32)
    ensures Xor(Number(B.Finalise(c), 32), ONES) == Number(c, 32)
  {
    hide Xor, Number, B.Xor;
    NumberOfOnes();
    NumberSum(B.Finalise(c), 0xffff_ffff, 32);
    FinaliseTwice(c);
  }

  lemma FinaliseTwice(c: bv32)
    ensures B.Xor(B.Finalise(c), 0xffff_ffff) == c
  {
  }

  /** The checksum of a block, complemented, is the remainder of its input times x^32, with the first 32 bits
      complemented. */
  lemma BlockSumIsRemainder(s: seq<Byte>)
    ensures IsRemainder(Xor(Number(B.Finalise(B.CrcOf(B.INITIAL, s)), 32), ONES),
                        Xor(Up(Message(s), 32), Up(ONES, 8 * |s|)), Polynomial(), 32)
  {
    hide Xor, Number, Pow2, Polynomial, Congruent, Message, B.CrcOf, B.Finalise;
    Complemented(B.CrcOf(B.INITIAL, s));
    NumberOfOnes();
    RegisterRemains(B.INITIAL, s);
  }
}
