/** What the checksum of gzip streams is: the remainder of a polynomial, its bits in the opposite order and
    complemented. */
module CrcRemainder {
  import opened Permutations
  import opened Bits
  import opened BitFields
  import opened ReversedBits
  import opened Gf2
  import opened Polynomials
  import opened Crc32

  /** The polynomial with these powers of x as its terms. */
  ghost function Powers(terms: seq<nat>): nat {
    if terms == [] then 0 else Xor(Powers(terms[..|terms| - 1]), Pow2(terms[|terms| - 1]))
  }

  /** x^32 + x^26 + x^23 + x^22 + x^16 + x^12 + x^11 + x^10 + x^8 + x^7 + x^5 + x^4 + x^2 + x + 1. */
  ghost function Polynomial(): nat {
    Powers([0, 1, 2, 4, 5, 7, 8, 10, 11, 12, 16, 22, 23, 26, 32])
  }

  /** The polynomial of a message: the bits of the bytes from the lowest up, the first of them the coefficient of the
      highest power. */
  ghost function Message(s: seq<Byte>): nat {
    if s == [] then 0 else Up(Message(s[..|s| - 1]), 8) + Reverse(s[|s| - 1], 8)
  }

  // ---- reversal and sums ----

  lemma {:induction false} ReverseSum(x: nat, y: nat, n: nat)
    ensures Reverse(Xor(x, y), n) == Xor(Reverse(x, n), Reverse(y, n))
    decreases n
  {
    hide Xor, Reverse, Pow2;
    if n == 0 {
      ReverseNothing(x);
      ReverseNothing(y);
      ReverseNothing(Xor(x, y));
      XorZero(0);
    } else {
      ReverseSum(x / 2, y / 2, n - 1);
      XorStep(x, y);
      ReverseStep(x, n);
      ReverseStep(y, n);
      ReverseStep(Xor(x, y), n);
      TopBits(x % 2, y % 2, Reverse(x / 2, n - 1), Reverse(y / 2, n - 1), n - 1);
    }
  }

  lemma ReverseNothing(x: nat)
    ensures Reverse(x, 0) == 0
  {
  }

  lemma TopBits(b: nat, c: nat, r: nat, s: nat, n: nat)
    requires b < 2 && c < 2 && r < Pow2(n) && s < Pow2(n)
    ensures Xor(Pow2(n) * b + r, Pow2(n) * c + s) == Pow2(n) * ((b + c) % 2) + Xor(r, s)
  {
    hide Xor, Pow2;
    XorDisjoint(b, r, n);
    XorDisjoint(c, s, n);
    XorSwap(b * Pow2(n), r, c * Pow2(n), s);
    XorShift(b, c, n);
    XorBounded(r, s, n);
    OneBit(b, c);
    XorDisjoint(Xor(b, c), Xor(r, s), n);
  }

  lemma OneBit(b: nat, c: nat)
    requires b < 2 && c < 2
    ensures Xor(b, c) == (b + c) % 2
  {
    XorZero(0);
    assert Xor(0, 0) == 0;
    XorHalves(b, c);
  }

  lemma ReversePower(t: nat)
    requires t < 32
    ensures Reverse(Pow2(31 - t), 32) == Pow2(t)
  {
    hide Pow2, Reverse;
    ReverseShift(1, t + 1, 31 - t);
    ReverseStep(1, t + 1);
    ReverseZeros(t);
  }

  lemma {:induction false} ReverseZeros(n: nat)
    ensures Reverse(0, n) == 0
  {
    if n > 0 { ReverseZeros(n - 1); }
  }

  /** The pattern is the polynomial reversed, without x^32. */
  lemma {:induction false} PatternReversed(terms: seq<nat>)
    requires forall i | 0 <= i < |terms| :: terms[i] < 32
    ensures Reverse(Pattern(terms), 32) == Powers(terms)
  {
    hide Xor, Reverse, Pow2;
    if terms == [] {
      ReverseZeros(32);
    } else {
      PatternReversed(terms[..|terms| - 1]);
      ReverseSum(Pattern(terms[..|terms| - 1]), Pow2(31 - terms[|terms| - 1]), 32);
      ReversePower(terms[|terms| - 1]);
    }
  }

  lemma PolynomialIs()
    ensures Polynomial() == Xor(Reverse(POLY, 32), Pow2(32))
    ensures Pow2(32) <= Polynomial() < Pow2(33)
  {
    hide Xor, Reverse, Pow2, Pattern, Powers;
    PatternIsPoly();
    PatternReversed(TERMS);
    PowersMore(TERMS, 32);
    assert TERMS + [32] == [0, 1, 2, 4, 5, 7, 8, 10, 11, 12, 16, 22, 23, 26, 32];
    XorCommutes(Reverse(POLY, 32), Pow2(32));
    XorDisjoint(1, Reverse(POLY, 32), 32);
    Pow2Step(32);
  }

  lemma PowersMore(terms: seq<nat>, t: nat)
    ensures Powers(terms + [t]) == Xor(Powers(terms), Pow2(t))
  {
    assert (terms + [t])[..|terms|] == terms;
  }

  // ---- steps are multiplications by x ----

  /** One zero bit: multiplication by x, less the polynomial if there is an x^32. */
  lemma StepMultiplies(c: nat)
    requires c <= ONES
    ensures Congruent(Reverse(c, 32) * Pow2(1), Reverse(Step(c), 32), Polynomial())
  {
    hide Xor, Reverse, Pow2, Polynomial, Congruent;
    Word32();
    PolynomialIs();
    var h, l, p := c / 2, c % 2, Polynomial();
    Doubled(c);
    ReverseSum(h, if l == 1 then POLY else 0, 32);
    ReverseZeros(32);
    XorZero(Reverse(h, 32));
    if l == 1 {
      var a := Reverse(c, 32) * Pow2(1);
      XorDisjoint(1, Reverse(h, 32), 32);
      XorCommutes(Reverse(POLY, 32), Pow2(32));
      XorSwap(Pow2(32), Reverse(h, 32), Pow2(32), Reverse(POLY, 32));
      XorSelf(Pow2(32));
      XorZero(Reverse(Step(c), 32));
      CongruentLess(a, p);
    } else {
      CongruentSelf(Reverse(h, 32), p);
    }
  }

  lemma Doubled(c: nat)
    requires c <= ONES
    ensures Reverse(c, 32) * Pow2(1) == (if c % 2 == 1 then Pow2(32) else 0) + Reverse(c / 2, 32)
    ensures Reverse(c / 2, 32) < Pow2(32)
  {
    hide Reverse, Pow2;
    Word32();
    Pow2Of1();
    Pow2Step(31);
    ReverseStep(c, 32);
    ReverseBottom(c / 2, 32);
    assert c / 2 / Pow2(31) == 0 && c / 2 % Pow2(31) == c / 2;
  }

  lemma {:induction false} StepsMultiply(c: nat, n: nat)
    requires c <= ONES
    ensures Congruent(Reverse(c, 32) * Pow2(n), Reverse(Steps(c, n), 32), Polynomial())
  {
    hide Xor, Reverse, Pow2, Polynomial, Congruent, Step;
    var p := Polynomial();
    if n == 0 {
      Pow2Of1();
      CongruentSelf(Reverse(c, 32), p);
    } else {
      StepsMultiply(c, n - 1);
      StepsBounded(c, n - 1);
      var d := Steps(c, n - 1);
      CongruentShift(Reverse(c, 32) * Pow2(n - 1), Reverse(d, 32), 1, p);
      StepMultiplies(d);
      CongruentTrans(Reverse(c, 32) * Pow2(n - 1) * Pow2(1), Reverse(d, 32) * Pow2(1), Reverse(Step(d), 32), p);
      Pow2Add(n - 1, 1);
      Together(Reverse(c, 32), Pow2(n - 1), Pow2(1));
    }
  }

  lemma Together(a: nat, b: nat, c: nat)
    ensures a * b * c == a * (b * c)
  {
  }

  // ---- messages ----

  lemma {:induction false} ReverseWidened(v: nat, n: nat, k: nat)
    requires v < Pow2(n)
    ensures Reverse(v, n + k) == Reverse(v, n) * Pow2(k)
    decreases k
  {
    hide Reverse, Pow2;
    if k == 0 {
      Pow2Of1();
    } else {
      ReverseWidened(v, n, k - 1);
      Pow2Monotonic(n, n + k - 1);
      Pow2Step(n + k - 1);
      ReverseBottom(v, n + k);
      QuotientIs(v, Pow2(n + k - 1), 0, v);
      RemainderFrom(v, Pow2(n + k - 1), 0);
      Pow2Step(k - 1);
      Regroup(Reverse(v, n), Pow2(k - 1));
    }
  }

  /** What the register stands for: the message times x^32, and the starting value in front of it. */
  ghost function Fed(c0: nat, s: seq<Byte>): nat {
    Xor(Up(Message(s), 32), Up(Reverse(c0, 32), 8 * |s|))
  }

  lemma FedMore(c0: nat, s: seq<Byte>, b: Byte)
    ensures Fed(c0, s + [b]) == Xor(Up(Fed(c0, s), 8), Up(Reverse(b, 8), 32))
  {
    hide Xor, Reverse, Pow2;
    assert (s + [b])[..|s|] == s;
    Feed(Message(s), Reverse(c0, 32), Reverse(b, 8), 8 * |s|);
  }

  /** One more byte behind a message with a starting value in front. */
  lemma Feed(m: nat, i: nat, r: nat, n: nat)
    requires r < Pow2(8)
    ensures Xor(Up(Up(m, 8) + r, 32), Up(i, n + 8)) == Xor(Up(Xor(Up(m, 32), Up(i, n)), 8), Up(r, 32))
  {
    hide Xor, Pow2;
    XorDisjoint(m, r, 8);
    XorShift(m * Pow2(8), r, 32);
    Together(m, Pow2(8), Pow2(32));
    Together(m, Pow2(32), Pow2(8));
    Pow2Add(n, 8);
    Together(i, Pow2(n), Pow2(8));
    XorShift(m * Pow2(32), i * Pow2(n), 8);
    var x, y, z := m * Pow2(32) * Pow2(8), r * Pow2(32), i * Pow2(n) * Pow2(8);
    XorAssociates(x, y, z);
    XorCommutes(y, z);
    XorAssociates(x, z, y);
  }

  lemma ByteMultiplies(c: nat, b: Byte)
    requires c <= ONES
    ensures Congruent(Xor(Up(Reverse(c, 32), 8), Up(Reverse(b, 8), 32)), Reverse(Update(c, b), 32), Polynomial())
  {
    hide Xor, Reverse, Pow2, Polynomial, Congruent, Steps;
    Word32();
    XorBounded(c, b, 32);
    StepsMultiply(Xor(c, b), 8);
    ReverseSum(c, b, 32);
    ReverseWidened(b, 8, 24);
    Together(Reverse(b, 8), Pow2(24), Pow2(8));
    Pow2Add(24, 8);
    XorShift(Reverse(c, 32), Reverse(b, 8) * Pow2(24), 8);
  }

  lemma {:induction false} RegisterRemains(c0: nat, s: seq<Byte>)
    requires c0 <= ONES
    ensures Congruent(Fed(c0, s), Reverse(Register(c0, s), 32), Polynomial())
  {
    hide Xor, Reverse, Pow2, Polynomial, Congruent, Fed, Update;
    var p := Polynomial();
    if s == [] {
      FedNothing(c0);
      CongruentSelf(Reverse(c0, 32), p);
    } else {
      var front, b := s[..|s| - 1], s[|s| - 1];
      assert s == front + [b];
      RegisterRemains(c0, front);
      RegisterBounded(c0, front);
      var c, y := Register(c0, front), Up(Reverse(b, 8), 32);
      FedMore(c0, front, b);
      CongruentShift(Fed(c0, front), Reverse(c, 32), 8, p);
      CongruentSum(Up(Fed(c0, front), 8), Up(Reverse(c, 32), 8), y, p);
      ByteMultiplies(c, b);
      CongruentTrans(Fed(c0, s), Xor(Up(Reverse(c, 32), 8), y), Reverse(Update(c, b), 32), p);
    }
  }

  lemma FedNothing(c0: nat)
    ensures Fed(c0, []) == Reverse(c0, 32)
  {
    hide Xor, Reverse;
    Pow2Of1();
    XorZero(Reverse(c0, 32));
  }

  /** The checksum of s, complemented and its bits reversed, is the remainder of the message times x^32, to which the
      starting value, complemented and reversed too, is added in front: for the starting value 0 that complements the
      first 32 bits of the message. */
  lemma CrcIsRemainder(crc: nat, s: seq<Byte>)
    requires crc <= ONES
    ensures IsRemainder(Reverse(Xor(Crc(crc, s), ONES), 32),
                        Xor(Up(Message(s), 32), Up(Reverse(Xor(crc, ONES), 32), 8 * |s|)), Polynomial(), 32)
    ensures Crc(crc, s) <= ONES && Pow2(32) <= Polynomial() < Pow2(33)
  {
    hide Xor, Reverse, Pow2, Polynomial, Congruent, Register, Message;
    Word32();
    var c0 := Xor(crc, ONES);
    XorBounded(crc, ONES, 32);
    ComplementTwice(Register(c0, s));
    RegisterBounded(c0, s);
    XorBounded(Register(c0, s), ONES, 32);
    RegisterRemains(c0, s);
    PolynomialIs();
  }

  /** Complementing the first 32 bits. */
  lemma {:induction false} ReverseOnes(n: nat)
    ensures Pow2(n) >= 1 && Reverse(Pow2(n) - 1, n) == Pow2(n) - 1
  {
    hide Reverse, Pow2;
    Pow2Of1();
    if n == 0 {
      ReverseNothing(0);
    } else {
      ReverseOnes(n - 1);
      Pow2Step(n - 1);
      ReverseStep(Pow2(n) - 1, n);
    }
  }

  /** For a new checksum, the starting value is a row of ones. */
  lemma NewCrc(s: seq<Byte>)
    ensures IsRemainder(Reverse(Xor(Crc(0, s), ONES), 32),
                        Xor(Up(Message(s), 32), Up(ONES, 8 * |s|)), Polynomial(), 32)
  {
    hide Xor, Reverse, Pow2, Polynomial, Crc, Message;
    Word32();
    CrcIsRemainder(0, s);
    XorZero(ONES);
    ReverseOnes(32);
  }
}
