/** The checksum of gzip streams: one bit of zero at a time, a byte at a time from a table, four bytes at a time from
    four tables, and all of it on byte-reversed registers. */
module Crc32 {
  import opened Permutations
  import opened Bits
  import opened Gf2

  const POLY: nat := 0xedb88320
  const ONES: nat := 0xffff_ffff

  /** The terms of the polynomial, except x^32. */
  const TERMS: seq<nat> := [0, 1, 2, 4, 5, 7, 8, 10, 11, 12, 16, 22, 23, 26]

  /** The exclusive-or pattern for some of the terms, lowest powers on top. */
  function Pattern(terms: seq<nat>): nat
    requires forall i | 0 <= i < |terms| :: terms[i] < 32
  {
    if terms == [] then 0 else Xor(Pattern(terms[..|terms| - 1]), Pow2(31 - terms[|terms| - 1]))
  }

  lemma PatternMore(terms: seq<nat>, t: nat)
    requires t < 32 && forall i | 0 <= i < |terms| :: terms[i] < 32
    ensures Pattern(terms + [t]) == Xor(Pattern(terms), Pow2(31 - t))
  {
    assert (terms + [t])[..|terms|] == terms;
  }

  /** Adding a power lower than all those before it. */
  lemma LowerPower(terms: seq<nat>, t: nat, h: nat)
    requires t < 32 && (forall i | 0 <= i < |terms| :: terms[i] < 32) && Pattern(terms) == h * Pow2(32 - t)
    ensures Pattern(terms + [t]) == h * Pow2(32 - t) + Pow2(31 - t)
  {
    hide Xor, Pattern;
    PatternMore(terms, t);
    Pow2Step(31 - t);
    XorDisjoint(h, Pow2(31 - t), 32 - t);
  }

  lemma FirstTerms()
    ensures Pattern(TERMS[..5]) == 0x1d * Pow2(27) + Pow2(26)
  {
    hide Xor, Pattern, Pow2;
    PowersTo32();
    NoTerms();
    assert [] + [0] == [0] && [0] + [1] == [0, 1] && [0, 1] + [2] == [0, 1, 2];
    assert [0, 1, 2] + [4] == [0, 1, 2, 4] && [0, 1, 2, 4] + [5] == TERMS[..5];
    LowerPower([], 0, 0x0);
    LowerPower([0], 1, 0x1);
    LowerPower([0, 1], 2, 0x3);
    LowerPower([0, 1, 2], 4, 0xe);
    LowerPower([0, 1, 2, 4], 5, 0x1d);
  }

  lemma MoreTerms()
    ensures Pattern(TERMS[..10]) == 0xedb * Pow2(20) + Pow2(19)
  {
    hide Xor, Pattern, Pow2;
    PowersTo32();
    FirstTerms();
    assert TERMS[..6] == TERMS[..5] + [7] && TERMS[..7] == TERMS[..6] + [8] && TERMS[..8] == TERMS[..7] + [10];
    assert TERMS[..9] == TERMS[..8] + [11] && TERMS[..10] == TERMS[..9] + [12];
    LowerPower(TERMS[..5], 7, 0x76);
    LowerPower(TERMS[..6], 8, 0xed);
    LowerPower(TERMS[..7], 10, 0x3b6);
    LowerPower(TERMS[..8], 11, 0x76d);
    LowerPower(TERMS[..9], 12, 0xedb);
  }

  lemma PatternIsPoly()
    ensures Pattern(TERMS) == POLY
  {
    hide Xor, Pattern, Pow2;
    PowersTo32();
    MoreTerms();
    assert TERMS[..11] == TERMS[..10] + [16] && TERMS[..12] == TERMS[..11] + [22];
    assert TERMS[..13] == TERMS[..12] + [23] && TERMS == TERMS[..13] + [26];
    LowerPower(TERMS[..10], 16, 0xedb8);
    LowerPower(TERMS[..11], 22, 0x3b6e20);
    LowerPower(TERMS[..12], 23, 0x76dc41);
    LowerPower(TERMS[..13], 26, 0x3b6e20c);
  }

  lemma NoTerms()
    ensures Pattern([]) == 0
  {
  }

  /** Bit 31 - p of the pattern is set exactly for the terms x^p of the polynomial x^32 + x^26 + x^23 + x^22 + x^16
      + x^12 + x^11 + x^10 + x^8 + x^7 + x^5 + x^4 + x^2 + x + 1. */
  lemma PolyBits(p: nat)
    requires p < 32
    ensures POLY / Pow2(31 - p) % 2 == 1 <==> p in [0, 1, 2, 4, 5, 7, 8, 10, 11, 12, 16, 22, 23, 26]
  {
    hide Pow2;
    PowersTo32();
    if p < 8 {
    } else if p < 16 {
    } else if p < 24 {
    } else {
    }
  }

  /** The operator for one zero bit: multiplication by x modulo the polynomial, lowest powers on top. */
  function Step(c: nat): nat {
    Xor(c / 2, if c % 2 == 1 then POLY else 0)
  }

  /** The operator for n zero bits. */
  function Steps(c: nat, n: nat): nat {
    if n == 0 then c else Step(Steps(c, n - 1))
  }

  lemma PolyXor(p: nat, q: nat)
    requires p < 2 && q < 2
    ensures Xor(if p == 1 then POLY else 0, if q == 1 then POLY else 0) == if (p + q) % 2 == 1 then POLY else 0
  {
    hide Xor;
    XorZero(POLY);
    XorZero(0);
    XorSelf(POLY);
  }

  lemma StepLinear(c: nat, d: nat)
    ensures Step(Xor(c, d)) == Xor(Step(c), Step(d))
  {
    hide Xor;
    XorStep(c, d);
    PolyXor(c % 2, d % 2);
    XorSwap(c / 2, if c % 2 == 1 then POLY else 0, d / 2, if d % 2 == 1 then POLY else 0);
  }

  /** Zero operators are linear... */
  lemma {:induction false} StepsLinear(c: nat, d: nat, n: nat)
    ensures Steps(Xor(c, d), n) == Xor(Steps(c, n), Steps(d, n))
  {
    hide Xor, Step;
    if n > 0 {
      StepsLinear(c, d, n - 1);
      StepLinear(Steps(c, n - 1), Steps(d, n - 1));
    }
  }

  /** ... and compose by adding up. */
  lemma {:induction false} StepsAdd(c: nat, m: nat, n: nat)
    ensures Steps(Steps(c, m), n) == Steps(c, m + n)
    decreases n
  {
    hide Step;
    if n > 0 { StepsAdd(c, m, n - 1); }
  }

  lemma StepBounded(c: nat)
    requires c <= ONES
    ensures Step(c) <= ONES
  {
    hide Xor;
    Word32();
    XorBounded(c / 2, POLY, 32);
    XorBounded(c / 2, 0, 32);
  }

  lemma Word32()
    ensures Pow2(32) == ONES + 1 && Pow2(8) == 256 && Pow2(16) == 65536 && Pow2(24) == 0x100_0000
  {
    assert Pow2(8) == 256;
    Pow2Add(8, 8);
    Pow2Add(16, 8);
    Pow2Add(24, 8);
  }

  lemma {:induction false} StepsBounded(c: nat, n: nat)
    requires c <= ONES
    ensures Steps(c, n) <= ONES
  {
    hide Step;
    if n > 0 {
      StepsBounded(c, n - 1);
      StepBounded(Steps(c, n - 1));
    }
  }

  /** Even numbers are only shifted. */
  lemma StepDouble(c: nat)
    ensures Step(2 * c) == c
  {
    hide Xor;
    XorZero(c);
  }

  lemma {:induction false} StepsShift(c: nat, n: nat)
    ensures Steps(c * Pow2(n), n) == c
    decreases n
  {
    hide Step, Xor;
    if n == 0 {
      assert c * Pow2(0) == c;
    } else {
      Regroup(c, Pow2(n - 1));
      StepDouble(c * Pow2(n - 1));
      StepsAdd(c * Pow2(n), 1, n - 1);
      assert Steps(c * Pow2(n), 1) == Step(Steps(c * Pow2(n), 0));
      assert Pow2(n) == 2 * Pow2(n - 1);
      StepsShift(c, n - 1);
    }
  }

  // ---- tables ----

  /** Entry n of table k: byte n followed by k zero bytes. */
  function Entry(k: nat, n: nat): nat {
    Steps(n, 8 * (k + 1))
  }

  /** A register splits into its low byte and the rest. */
  lemma StepsSplit(c: nat, n: nat)
    ensures Steps(c, n + 8) == Xor(Steps(c % 256, n + 8), Steps(c / 256, n))
  {
    hide Xor, Steps;
    Word32();
    var h, r := c / 256, c % 256;
    XorDisjoint(h, r, 8);
    XorCommutes(h * 256, r);
    assert c == Xor(r, h * 256);
    StepsLinear(r, h * 256, n + 8);
    StepsShift(h, 8);
    StepsAdd(h * 256, 8, n);
  }

  /** The exclusive-or pattern, from the terms of the polynomial. */
  method MakePattern() returns (poly: nat)
    ensures poly == POLY
  {
    hide Xor, Pow2, Pattern;
    poly := 0;
    NoTerms();
    for n := 0 to |TERMS|
      invariant poly == Pattern(TERMS[..n])
    {
      assert TERMS[..n + 1] == TERMS[..n] + [TERMS[n]];
      PatternMore(TERMS[..n], TERMS[n]);
      poly := Xor(poly, Pow2(31 - TERMS[n]));   // |= : no term occurs twice
    }
    assert TERMS[..|TERMS|] == TERMS;
    PatternIsPoly();
  }

  /** make_crc_table computes the first table bit by bit, and each following one from the one before. */
  method MakeTables(tables: array2<nat>)
    requires tables.Length0 == 4 && tables.Length1 == 256
    modifies tables
    ensures forall k, n | 0 <= k < 4 && 0 <= n < 256 :: tables[k, n] == Entry(k, n)
  {
    hide Step, Xor;
    var poly := MakePattern();
    for n := 0 to 256
      invariant forall m | 0 <= m < n :: tables[0, m] == Entry(0, m)
    {
      var c: nat := n;
      for k := 0 to 8
        invariant c == Steps(n, k)
        invariant forall m | 0 <= m < n :: tables[0, m] == Entry(0, m)
      {
        c := Xor(c / 2, if c % 2 == 1 then poly else 0);
        StepIs(Steps(n, k), c);
      }
      tables[0, n] := c;
    }
    for n := 0 to 256
      invariant forall m | 0 <= m < 256 :: tables[0, m] == Entry(0, m)
      invariant forall k, m | 0 <= k < 4 && 0 <= m < n :: tables[k, m] == Entry(k, m)
    {
      var c := tables[0, n];
      for k := 1 to 4
        invariant c == Entry(k - 1, n)
        invariant forall m | 0 <= m < 256 :: tables[0, m] == Entry(0, m)
        invariant forall j, m | 0 <= j < 4 && 0 <= m < n :: tables[j, m] == Entry(j, m)
        invariant forall j | 0 <= j < k :: tables[j, n] == Entry(j, n)
      {
        NextTable(n, k);
        c := Xor(tables[0, c % 256], c / 256);
        tables[k, n] := c;
      }
    }
  }

  lemma StepIs(c: nat, d: nat)
    requires d == Xor(c / 2, if c % 2 == 1 then POLY else 0)
    ensures d == Step(c)
  {
    hide Xor;
  }

  lemma NextTable(n: nat, k: nat)
    requires k >= 1
    ensures var c := Entry(k - 1, n); Entry(k, n) == Xor(Entry(0, c % 256), c / 256)
  {
    hide Xor, Steps;
    var c := Entry(k - 1, n);
    StepsAdd(n, 8 * k, 8);
    StepsSplit(c, 0);
    assert Steps(c / 256, 0) == c / 256 by { NoSteps(c / 256); }
  }

  lemma NoSteps(c: nat)
    ensures Steps(c, 0) == c
  {
  }

  // ---- bytes ----

  /** The register after one more byte. */
  function Update(c: nat, b: Byte): nat {
    Steps(Xor(c, b), 8)
  }

  /** The register after a sequence of bytes. */
  function Register(c: nat, s: seq<Byte>): nat {
    if s == [] then c else Update(Register(c, s[..|s| - 1]), s[|s| - 1])
  }

  lemma RegisterAppend(c: nat, s: seq<Byte>, b: Byte)
    ensures Register(c, s + [b]) == Update(Register(c, s), b)
  {
    assert (s + [b])[..|s|] == s;
  }

  lemma {:induction false} RegisterConcat(c: nat, s: seq<Byte>, t: seq<Byte>)
    ensures Register(c, s + t) == Register(Register(c, s), t)
    decreases |t|
  {
    hide Update;
    if t == [] {
      assert s + t == s;
    } else {
      var front, last := t[..|t| - 1], t[|t| - 1];
      RegisterConcat(c, s, front);
      assert s + t == (s + front) + [last];
      RegisterAppend(c, s + front, last);
    }
  }

  lemma ByteStep(c: nat, b: Byte)
    requires c <= ONES
    ensures Update(c, b) == Xor(Entry(0, Xor(c, b) % 256), c / 256)
    ensures Update(c, b) <= ONES
  {
    hide Xor, Steps;
    Word32();
    var x := Xor(c, b);
    XorBounded(c, b, 32);
    StepsBounded(x, 8);
    StepsSplit(x, 0);
    NoSteps(x / 256);
    HighPart(c, b);
  }

  lemma HighPart(c: nat, b: Byte)
    ensures Xor(c, b) / 256 == c / 256
  {
    hide Xor;
    Word32();
    var h, r := c / 256, c % 256;
    XorDisjoint(h, r, 8);
    XorAssociates(h * 256, r, b);
    XorBounded(r, b, 8);
    XorDisjoint(h, Xor(r, b), 8);
    assert Xor(c, b) == h * 256 + Xor(r, b);
  }

  lemma {:induction false} RegisterBounded(c: nat, s: seq<Byte>)
    requires c <= ONES
    ensures Register(c, s) <= ONES
  {
    hide Update;
    if s != [] {
      RegisterBounded(c, s[..|s| - 1]);
      ByteStep(Register(c, s[..|s| - 1]), s[|s| - 1]);
    }
  }

  /** Two registers that differ stay different by what zeros make of the difference. */
  lemma {:induction false} RegisterLinear(c: nat, d: nat, s: seq<Byte>)
    ensures Register(Xor(c, d), s) == Xor(Register(c, s), Steps(d, 8 * |s|))
  {
    hide Xor, Steps;
    if s == [] {
      NoSteps(d);
    } else {
      var front, b := s[..|s| - 1], s[|s| - 1];
      RegisterLinear(c, d, front);
      var x, z := Register(c, front), Steps(d, 8 * |front|);
      XorAssociates(x, z, b);
      XorCommutes(z, b);
      XorAssociates(x, b, z);
      StepsLinear(Xor(x, b), z, 8);
      StepsAdd(d, 8 * |front|, 8);
    }
  }

  /** The checksum as the library defines it: complemented before and after. */
  function Crc(crc: nat, s: seq<Byte>): nat {
    Xor(Register(Xor(crc, ONES), s), ONES)
  }

  lemma ComplementTwice(c: nat)
    ensures Xor(Xor(c, ONES), ONES) == c
  {
    hide Xor;
    XorAssociates(c, ONES, ONES);
    XorSelf(ONES);
    XorZero(c);
  }

  /** Checksums can be taken piece by piece. */
  lemma CrcConcat(crc: nat, s: seq<Byte>, t: seq<Byte>)
    ensures Crc(Crc(crc, s), t) == Crc(crc, s + t)
  {
    hide Xor, Register;
    ComplementTwice(Register(Xor(crc, ONES), s));
    RegisterConcat(Xor(crc, ONES), s, t);
  }

  ghost predicate IsTables(tables: array2<nat>)
    reads tables
  {
    && tables.Length0 == 4 && tables.Length1 == 256
    && forall k, n | 0 <= k < 4 && 0 <= n < 256 :: tables[k, n] == Entry(k, n)
  }

  lemma OneFurther(c0: nat, buf: seq<Byte>, i: nat)
    requires i < |buf|
    ensures Register(c0, buf[..i + 1]) == Update(Register(c0, buf[..i]), buf[i])
  {
    hide Update, Register;
    assert buf[..i + 1] == buf[..i] + [buf[i]];
    RegisterAppend(c0, buf[..i], buf[i]);
  }

  lemma AtBothEnds(c0: nat, buf: seq<Byte>)
    ensures Register(c0, buf[..0]) == c0 && Register(c0, buf[..|buf|]) == Register(c0, buf)
  {
    hide Update;
    assert buf[..|buf|] == buf;
  }

  /** The byte loop of crc32, which DO8 unrolls eight times. */
  method Checksum(tables: array2<nat>, crc: nat, buf: seq<Byte>) returns (r: nat)
    requires IsTables(tables) && crc <= ONES
    ensures r == Crc(crc, buf) && r <= ONES
  {
    hide Xor, Update, IsTables;
    Word32();
    XorBounded(crc, ONES, 32);
    var c := Xor(crc, ONES);
    ghost var c0 := c;
    AtBothEnds(c0, buf);
    for i := 0 to |buf|
      invariant c == Register(c0, buf[..i]) && c <= ONES
    {
      OneFurther(c0, buf, i);
      c := OneByte(tables, c, buf[i]);
    }
    XorBounded(c, ONES, 32);
    r := Xor(c, ONES);
  }

  // ---- four bytes at a time ----

  /** Four bytes as a little-endian word. */
  function Word(b0: Byte, b1: Byte, b2: Byte, b3: Byte): (w: nat)
    ensures w <= ONES
  {
    b0 + 256 * b1 + 65536 * b2 + 0x100_0000 * b3
  }

  /** DOLIT4: one lookup in each table. */
  function Lookup4(c: nat): nat {
    Xor(Xor(Xor(Entry(3, c % 256), Entry(2, c / 256 % 256)), Entry(1, c / 65536 % 256)), Entry(0, c / 0x100_0000))
  }

  /** Four lookups are the operator for 32 zero bits. */
  lemma LookupIsSteps(c: nat)
    requires c <= ONES
    ensures Lookup4(c) == Steps(c, 32)
  {
    hide Xor, Steps;
    StepsSplit(c, 24);
    StepsSplit(c / 256, 16);
    StepsSplit(c / 256 / 256, 8);
    StepsSplit(c / 256 / 256 / 256, 0);
    NoSteps(c / 256 / 256 / 256 / 256);
    var e3, e2, e1, e0 := Entry(3, c % 256), Entry(2, c / 256 % 256), Entry(1, c / 65536 % 256),
        Entry(0, c / 0x100_0000);
    assert c / 256 / 256 == c / 65536 && c / 65536 / 256 == c / 0x100_0000 && c / 0x100_0000 / 256 == 0;
    XorZero(e0);
    assert Steps(c, 32) == Xor(e3, Xor(e2, Xor(e1, e0)));
    XorAssociates(e3, e2, Xor(e1, e0));
    XorAssociates(Xor(e3, e2), e1, e0);
  }

  /** Feeding a byte into a register that has been moved on is feeding it in higher up. */
  lemma FeedHigher(c: nat, b: Byte, n: nat)
    ensures Update(Steps(c, n), b) == Steps(Xor(c, b * Pow2(n)), n + 8)
  {
    hide Xor, Steps, Pow2;
    StepsShift(b, n);
    StepsLinear(c, b * Pow2(n), n);
    StepsAdd(Xor(c, b * Pow2(n)), n, 8);
  }

  /** The word-at-a-time step is four byte steps. */
  lemma WordIsBytes(c: nat, b0: Byte, b1: Byte, b2: Byte, b3: Byte)
    requires c <= ONES
    ensures Register(c, [b0, b1, b2, b3]) == Lookup4(Xor(c, Word(b0, b1, b2, b3)))
    ensures Xor(c, Word(b0, b1, b2, b3)) <= ONES
  {
    hide Xor, Steps, Lookup4, Update;
    Word32();
    FourUpdates(c, b0, b1, b2, b3);
    NoSteps(c);
    FeedHigher(c, b0, 0);
    assert b0 * Pow2(0) == b0;
    var c1 := Xor(c, b0);
    FeedHigher(c1, b1, 8);
    var c2 := Xor(c1, b1 * 256);
    FeedHigher(c2, b2, 16);
    var c3 := Xor(c2, b2 * 65536);
    FeedHigher(c3, b3, 24);
    WordParts(c, b0, b1, b2, b3);
    XorBounded(c, Word(b0, b1, b2, b3), 32);
    LookupIsSteps(Xor(c, Word(b0, b1, b2, b3)));
  }

  lemma FourUpdates(c: nat, b0: Byte, b1: Byte, b2: Byte, b3: Byte)
    ensures Register(c, [b0, b1, b2, b3]) == Update(Update(Update(Update(c, b0), b1), b2), b3)
  {
    hide Update;
    RegisterAppend(c, [], b0);
    RegisterAppend(c, [b0], b1);
    RegisterAppend(c, [b0, b1], b2);
    RegisterAppend(c, [b0, b1, b2], b3);
    assert [] + [b0] == [b0] && [b0] + [b1] == [b0, b1] && [b0, b1] + [b2] == [b0, b1, b2];
    assert [b0, b1, b2] + [b3] == [b0, b1, b2, b3];
  }

  lemma WordParts(c: nat, b0: Byte, b1: Byte, b2: Byte, b3: Byte)
    ensures Xor(Xor(Xor(Xor(c, b0), b1 * 256), b2 * 65536), b3 * 0x100_0000) == Xor(c, Word(b0, b1, b2, b3))
  {
    hide Xor;
    Word32();
    XorAssociates(c, b0, b1 * 256);
    XorDisjoint(b1, b0, 8);
    XorCommutes(b0, b1 * 256);
    var w1: nat := b0 + b1 * 256;
    XorAssociates(c, w1, b2 * 65536);
    XorDisjoint(b2, w1, 16);
    XorCommutes(w1, b2 * 65536);
    var w2: nat := w1 + b2 * 65536;
    XorAssociates(c, w2, b3 * 0x100_0000);
    XorDisjoint(b3, w2, 24);
    XorCommutes(w2, b3 * 0x100_0000);
  }

  /** DO1. */
  method OneByte(tables: array2<nat>, c0: nat, b: Byte) returns (c: nat)
    requires IsTables(tables) && c0 <= ONES
    ensures c == Update(c0, b) && c <= ONES
  {
    hide Xor, Entry, Update;
    ByteStep(c0, b);
    c := Xor(tables[0, Xor(c0, b) % 256], c0 / 256);
  }

  /** DOLIT4. */
  method FourBytes(tables: array2<nat>, c0: nat, b0: Byte, b1: Byte, b2: Byte, b3: Byte) returns (c: nat)
    requires IsTables(tables) && c0 <= ONES
    ensures c == Register(c0, [b0, b1, b2, b3]) && c <= ONES
  {
    hide Xor, Entry, Lookup4, Word, Register;
    WordIsBytes(c0, b0, b1, b2, b3);
    RegisterBounded(c0, [b0, b1, b2, b3]);
    c := Xor(c0, Word(b0, b1, b2, b3));
    Lookup4Is(c);
    c := Xor(Xor(Xor(tables[3, c % 256], tables[2, c / 256 % 256]), tables[1, c / 65536 % 256]),
             tables[0, c / 0x100_0000]);
  }

  lemma FourFurther(c0: nat, buf: seq<Byte>, i: nat)
    requires i + 4 <= |buf|
    ensures Register(c0, buf[..i + 4]) ==
            Register(Register(c0, buf[..i]), [buf[i], buf[i + 1], buf[i + 2], buf[i + 3]])
  {
    hide Update, Register;
    var four := [buf[i], buf[i + 1], buf[i + 2], buf[i + 3]];
    assert buf[..i + 4] == buf[..i] + four;
    RegisterConcat(c0, buf[..i], four);
  }

  /** crc32_little: bytes up to a word boundary, then words, then the bytes left over. The result does not depend on
      where the buffer lies in memory. */
  method Crc32Little(tables: array2<nat>, crc: nat, buf: seq<Byte>, address: nat) returns (r: nat)
    requires IsTables(tables) && crc <= ONES
    ensures r == Crc(crc, buf)
  {
    hide Xor, Update, IsTables, Register;
    Word32();
    XorBounded(crc, ONES, 32);
    var c := Xor(crc, ONES);
    ghost var c0 := c;
    var i := 0;
    AtBothEnds(c0, buf);
    while i < |buf| && (address + i) % 4 != 0
      invariant 0 <= i <= |buf| && c == Register(c0, buf[..i]) && c <= ONES
    {
      OneFurther(c0, buf, i);
      c := OneByte(tables, c, buf[i]);
      i := i + 1;
    }
    while |buf| - i >= 4
      invariant 0 <= i <= |buf| && c == Register(c0, buf[..i]) && c <= ONES
    {
      FourFurther(c0, buf, i);
      c := FourBytes(tables, c, buf[i], buf[i + 1], buf[i + 2], buf[i + 3]);
      i := i + 4;
    }
    while i < |buf|
      invariant 0 <= i <= |buf| && c == Register(c0, buf[..i]) && c <= ONES
    {
      OneFurther(c0, buf, i);
      c := OneByte(tables, c, buf[i]);
      i := i + 1;
    }
    r := Xor(c, ONES);
  }

  lemma Lookup4Is(c: nat)
    ensures Lookup4(c)
         == Xor(Xor(Xor(Entry(3, c % 256), Entry(2, c / 256 % 256)), Entry(1, c / 65536 % 256)),
                Entry(0, c / 0x100_0000))
  {
    hide Xor, Entry;
  }
}
