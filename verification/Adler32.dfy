/** The checksum of zlib streams: two sums modulo a prime, with the modulo deferred as long as 32 bits allow. */
module Adler32 {
  import opened Permutations

  const BASE := 65521
  const NMAX := 5552
  const WORD := 0x1_0000_0000

  // ---- the definition ----

  /** The first sum, not reduced... */
  function SumA(a: nat, s: seq<Byte>): nat {
    if s == [] then a else SumA(a, s[..|s| - 1]) + s[|s| - 1]
  }

  /** ... and the second: the sum of the first sums after every byte. */
  function SumB(a: nat, b: nat, s: seq<Byte>): nat {
    if s == [] then b else SumB(a, b, s[..|s| - 1]) + SumA(a, s)
  }

  /** The checksum of s, continuing from the sums in adler. */
  function Adler(adler: nat, s: seq<Byte>): nat {
    Combined(SumA(adler % 65536, s) % BASE, SumB(adler % 65536, adler / 65536 % 65536, s) % BASE)
  }

  function Combined(a: nat, b: nat): nat {
    a + b * 65536
  }

  lemma SumAppend(a: nat, b: nat, s: seq<Byte>, c: Byte)
    ensures SumA(a, s + [c]) == SumA(a, s) + c
    ensures SumB(a, b, s + [c]) == SumB(a, b, s) + SumA(a, s) + c
  {
    assert (s + [c])[..|s|] == s;
  }

  lemma {:induction false} SumConcat(a: nat, b: nat, s: seq<Byte>, t: seq<Byte>)
    ensures SumA(a, s + t) == SumA(SumA(a, s), t)
    ensures SumB(a, b, s + t) == SumB(SumA(a, s), SumB(a, b, s), t)
    decreases |t|
  {
    if t == [] {
      assert s + t == s;
    } else {
      var front, last := t[..|t| - 1], t[|t| - 1];
      SumConcat(a, b, s, front);
      assert s + t == (s + front) + [last];
      SumAppend(a, b, s + front, last);
    }
  }

  /** What the starting sums contribute. */
  lemma {:induction false} SumShift(a: nat, b: nat, s: seq<Byte>)
    ensures SumA(a, s) == a + SumA(0, s)
    ensures SumB(a, b, s) == b + |s| * a + SumB(0, 0, s)
  {
    if s != [] {
      SumShift(a, b, s[..|s| - 1]);
      assert |s| * a == (|s| - 1) * a + a by { OneMore(|s| - 1, a); }
    } else {
      assert |s| * a == 0;
    }
  }

  lemma OneMore(n: int, a: int)
    ensures (n + 1) * a == n * a + a
  {
  }

  /** The largest the sums can get from a and b in n bytes. */
  lemma {:induction false} SumBounds(a: nat, b: nat, s: seq<Byte>)
    ensures SumA(a, s) <= a + 255 * |s|
    ensures 2 * SumB(a, b, s) <= 2 * b + 2 * (|s| * a) + 255 * (|s| * (|s| + 1))
  {
    var n := |s|;
    if n > 0 {
      SumBounds(a, b, s[..n - 1]);
      OneMore(n - 1, a);
      assert n * (n + 1) == (n - 1) * n + 2 * n by { Triangle(n); }
    }
  }

  lemma Triangle(n: int)
    ensures n * (n + 1) == (n - 1) * n + 2 * n
  {
  }

  /** NMAX bytes keep both sums within 32 bits, even from sums that are only known to fit in 16 bits each... */
  lemma NoOverflow(a: nat, b: nat, s: seq<Byte>)
    requires a < 65536 && b < 65536 && |s| <= NMAX
    ensures SumA(a, s) < WORD && SumB(a, b, s) < WORD
  {
    SumBounds(a, b, s);
    Product(|s|, a);
    Square(|s|);
  }

  lemma Product(n: nat, a: nat)
    requires n <= NMAX && a <= 65535
    ensures n * a <= NMAX * 65535
  {
    MulMonotonic(n, NMAX, a, 65535);
  }

  lemma Square(n: nat)
    requires n <= NMAX
    ensures n * (n + 1) <= NMAX * (NMAX + 1)
  {
    MulMonotonic(n, NMAX, n + 1, NMAX + 1);
  }

  lemma MulMonotonic(x: nat, x': nat, y: nat, y': nat)
    requires x <= x' && y <= y'
    ensures x * y <= x' * y'
  {
    assert x * y <= x' * y;
    assert x' * y <= x' * y';
  }

  function Largest(n: nat): seq<Byte> {
    seq(n, _ => 255)
  }

  lemma {:induction false} LargestSum(a: nat, b: nat, n: nat)
    ensures SumA(a, Largest(n)) == a + 255 * n
    ensures 2 * SumB(a, b, Largest(n)) == 2 * b + 2 * (n * a) + 255 * (n * (n + 1))
    decreases n
  {
    if n > 0 {
      LargestSum(a, b, n - 1);
      assert Largest(n)[..n - 1] == Largest(n - 1);
      OneMore(n - 1, a);
      Triangle(n);
    }
  }

  /** ... and one byte more would not, even from reduced sums. */
  lemma NMaxIsLargest()
    ensures SumB(BASE - 1, BASE - 1, Largest(NMAX + 1)) >= WORD
  {
    LargestSum(BASE - 1, BASE - 1, NMAX + 1);
  }

  // ---- reduction without division ----

  /** CHOP: 2^16 is 15 modulo BASE. */
  function Chop(a: nat): nat {
    a % 65536 + 15 * (a / 65536)
  }

  lemma ChopKeeps(a: nat)
    ensures Chop(a) % BASE == a % BASE
  {
    var h := a / 65536;
    assert a == Chop(a) + BASE * h;
    Multiples(Chop(a), h);
  }

  lemma Multiples(x: nat, h: nat)
    ensures (x + BASE * h) % BASE == x % BASE
  {
    var q, r := x / BASE, x % BASE;
    assert x + BASE * h == BASE * (q + h) + r;
  }

  function Mod28(a: nat): nat {
    var c := Chop(a);
    if c >= BASE then c - BASE else c
  }

  function Mod(a: nat): nat {
    Mod28(Chop(a))
  }

  /** 2^32 is 225 modulo BASE. */
  function Mod63(a: nat): nat {
    var a1 := a % WORD + 225 * (a / WORD);
    Mod28(Chop(a1))
  }

  lemma Remainder(x: nat)
    ensures x < BASE ==> x % BASE == x
    ensures BASE <= x < 2 * BASE ==> x % BASE == x - BASE
  {
  }

  /** The three reductions are exact on the ranges they are used for. */
  lemma Mod28Exact(a: nat)
    requires a < 0x1000_0000
    ensures Mod28(a) == a % BASE
  {
    ChopKeeps(a);
    Remainder(Chop(a));
    assert Chop(a) < 2 * BASE;
  }

  lemma ModExact(a: nat)
    requires a < WORD
    ensures Mod(a) == a % BASE
  {
    assert Chop(a) < 0x1000_0000;
    ChopKeeps(a);
    Mod28Exact(Chop(a));
  }

  lemma Mod63Exact(a: nat)
    requires a < 0x8000_0000_0000_0000
    ensures Mod63(a) == a % BASE
  {
    hide Chop, Mod28;
    var h := a / WORD;
    var a1 := a % WORD + 225 * h;
    assert a == a1 + BASE * (65551 * h);
    Multiples(a1, 65551 * h);
    ChopKeeps(a1);
    assert Chop(a1) < 0x1000_0000 by { ChopBound(a1); }
    Mod28Exact(Chop(a1));
  }

  lemma ChopBound(a: nat)
    requires a < 0x80_0000_0000
    ensures Chop(a) < 0x1000_0000
  {
  }

  // ---- adler32 ----

  lemma SumReduced(a: nat, b: nat, s: seq<Byte>)
    ensures SumA(a % BASE, s) % BASE == SumA(a, s) % BASE
    ensures SumB(a % BASE, b % BASE, s) % BASE == SumB(a, b, s) % BASE
  {
    hide SumA, SumB;
    SumShift(a, b, s);
    SumShift(a % BASE, b % BASE, s);
    ReducedTerms(a, b, |s|, SumA(0, s), SumB(0, 0, s));
  }

  lemma ReducedTerms(a: nat, b: nat, n: nat, x: nat, y: nat)
    ensures (a % BASE + x) % BASE == (a + x) % BASE
    ensures n * (a % BASE) >= 0 && n * a >= 0
    ensures (b % BASE + n * (a % BASE) + y) % BASE == (b + n * a + y) % BASE
  {
    var q, r, a', b' := a / BASE, b / BASE, a % BASE, b % BASE;
    assert a == a' + BASE * q && b == b' + BASE * r;
    Multiples(a' + x, q);
    Spread(n, a', q);
    NonNegative(n, q);
    NonNegative(n, a');
    NonNegative(n, a);
    Multiples(b' + n * a' + y, r + n * q);
  }

  lemma Spread(n: int, x: int, q: int)
    ensures n * (x + BASE * q) == n * x + BASE * (n * q)
  {
  }

  lemma NonNegative(n: nat, q: nat)
    ensures n * q >= 0
  {
  }

  /** Adds bytes to the sums; DO16 and the loops over single bytes do the same, and neither sum leaves 32 bits. */
  method AddBytes(adler0: nat, sum0: nat, buf: seq<Byte>) returns (adler: nat, sum2: nat)
    requires adler0 < 65536 && sum0 < 65536 && |buf| <= NMAX
    ensures adler == SumA(adler0, buf) && sum2 == SumB(adler0, sum0, buf)
    ensures adler < WORD && sum2 < WORD
  {
    hide SumA, SumB;
    adler, sum2 := adler0, sum0;
    SumNothing(adler0, sum0);
    for i := 0 to |buf|
      invariant adler == SumA(adler0, buf[..i]) && sum2 == SumB(adler0, sum0, buf[..i])
    {
      assert buf[..i + 1] == buf[..i] + [buf[i]];
      SumAppend(adler0, sum0, buf[..i], buf[i]);
      NoOverflow(adler0, sum0, buf[..i + 1]);
      adler := adler + buf[i];
      assert adler < WORD;
      sum2 := sum2 + adler;
      assert sum2 < WORD;
    }
    assert buf[..|buf|] == buf;
    NoOverflow(adler0, sum0, buf);
  }

  lemma SumNothing(a: nat, b: nat)
    ensures SumA(a, []) == a && SumB(a, b, []) == b
  {
  }

  /** Whether the path for a single byte, which subtracts BASE at most once, reduces its second sum. */
  predicate Reduces(adler0: nat, buf: seq<Byte>) {
    |buf| == 1 ==> adler0 / 65536 % 65536 + (adler0 % 65536 + buf[0]) % BASE < 2 * BASE
  }

  /** Every starting value that is a checksum qualifies... */
  lemma ChecksumsReduce(adler0: nat, buf: seq<Byte>)
    requires adler0 / 65536 % 65536 < BASE
    ensures Reduces(adler0, buf)
  {
  }

  /** ... but not every pair of 16-bit halves. */
  lemma NotAlwaysReduced()
    ensures !Reduces(Combined(65520, 65535), [0])
  {
    Halves(65520, 65535);
  }

  /** The definition is met from every starting value, also one whose halves are not reduced, with the exception of a
      single byte for which one subtraction is not enough. */
  method Adler32(adler0: nat, buf: seq<Byte>) returns (r: nat)
    requires adler0 < WORD
    ensures r == Adler(adler0, buf) <==> Reduces(adler0, buf)
  {
    hide SumA, SumB;
    var a0, b0 := adler0 % 65536, adler0 / 65536 % 65536;
    if |buf| == 1 {
      r := OneByte(a0, b0, buf);
      return;
    }
    if |buf| < 16 {
      r := FewBytes(a0, b0, buf);
      return;
    }
    var adler: nat, sum2: nat, i: nat := a0, b0, 0;
    SumNothing(a0, b0);
    assert buf[..0] == [];
    while |buf| - i >= NMAX
      invariant 0 <= i <= |buf| && adler < 65536 && sum2 < 65536
      invariant adler % BASE == SumA(a0, buf[..i]) % BASE && sum2 % BASE == SumB(a0, b0, buf[..i]) % BASE
      invariant i > 0 ==> adler < BASE && sum2 < BASE
    {
      adler, sum2 := AddBlock(a0, b0, buf, i, i + NMAX, adler, sum2);
      i := i + NMAX;
    }
    if |buf| - i > 0 {
      adler, sum2 := AddBlock(a0, b0, buf, i, |buf|, adler, sum2);
    }
    assert buf[..|buf|] == buf;
    r := Combined(adler, sum2);
  }

  /** One block of at most NMAX bytes, reduced at its end. */
  method AddBlock(a0: nat, b0: nat, buf: seq<Byte>, i: nat, j: nat, adler0: nat, sum0: nat)
    returns (adler: nat, sum2: nat)
    requires i < j <= |buf| && j - i <= NMAX && adler0 < 65536 && sum0 < 65536
    requires adler0 % BASE == SumA(a0, buf[..i]) % BASE && sum0 % BASE == SumB(a0, b0, buf[..i]) % BASE
    ensures adler == SumA(a0, buf[..j]) % BASE && sum2 == SumB(a0, b0, buf[..j]) % BASE
    ensures adler < BASE && sum2 < BASE
  {
    hide SumA, SumB;
    var block := buf[i..j];
    assert buf[..j] == buf[..i] + block;
    SumConcat(a0, b0, buf[..i], block);
    SumReduced(adler0, sum0, block);
    SumReduced(SumA(a0, buf[..i]), SumB(a0, b0, buf[..i]), block);
    adler, sum2 := AddBytes(adler0, sum0, block);
    ModExact(adler);
    ModExact(sum2);
    adler := Mod(adler);
    sum2 := Mod(sum2);
  }

  /** The remainder by subtraction. */
  lemma Remainders(x: nat)
    requires x < 4 * BASE
    ensures x < BASE ==> x % BASE == x
    ensures BASE <= x < 2 * BASE ==> x % BASE == x - BASE
    ensures 2 * BASE <= x < 3 * BASE ==> x % BASE == x - 2 * BASE
    ensures 3 * BASE <= x ==> x % BASE == x - 3 * BASE
  {
  }

  method OneByte(a0: nat, b0: nat, buf: seq<Byte>) returns (r: nat)
    requires a0 < 65536 && b0 < 65536 && |buf| == 1
    ensures r == Combined(SumA(a0, buf) % BASE, SumB(a0, b0, buf) % BASE) <==> b0 + (a0 + buf[0]) % BASE < 2 * BASE
  {
    hide SumA, SumB;
    SumNothing(a0, b0);
    SumAppend(a0, b0, [], buf[0]);
    assert [] + [buf[0]] == buf;
    ghost var n: nat := a0 + buf[0];
    Remainder(n);
    SameRemainder(n, b0);
    var adler := a0 + buf[0];
    if adler >= BASE { adler := adler - BASE; }
    var sum2 := b0 + adler;
    Remainders(sum2);
    if sum2 >= BASE { sum2 := sum2 - BASE; }
    r := Combined(adler, sum2);
  }

  method FewBytes(a0: nat, b0: nat, buf: seq<Byte>) returns (r: nat)
    requires a0 < 65536 && b0 < 65536 && |buf| < 16
    ensures r == Combined(SumA(a0, buf) % BASE, SumB(a0, b0, buf) % BASE)
  {
    hide SumA, SumB;
    var adler, sum2 := AddBytes(a0, b0, buf);
    SumBounds(a0, b0, buf);
    MulMonotonic(|buf|, 15, a0, 65535);
    MulMonotonic(|buf|, 15, |buf| + 1, 16);
    Remainder(adler);
    if adler >= BASE { adler := adler - BASE; }
    Mod28Exact(sum2);
    sum2 := Mod28(sum2);
    r := Combined(adler, sum2);
  }

  // ---- adler32_combine_ ----

  /** The halves of a checksum. */
  lemma Halves(a: nat, b: nat)
    requires a < 65536 && b < 65536
    ensures Combined(a, b) % 65536 == a && Combined(a, b) / 65536 % 65536 == b && Combined(a, b) < WORD
  {
  }

  /** Whether the conditional subtractions reduce both sums: two that take off BASE once each, and one that takes it
      off twice followed by one that takes it off once. */
  predicate CombineReduces(adler1: nat, adler2: nat, len2: nat) {
    var a1, b1, a2, b2, rem := adler1 % 65536, adler1 / 65536 % 65536, adler2 % 65536, adler2 / 65536 % 65536,
        len2 % BASE;
    && a1 + a2 + BASE - 1 < 3 * BASE
    && rem * a1 % BASE + b1 + b2 + BASE - rem < 4 * BASE
  }

  /** Checksums qualify... */
  lemma ChecksumsCombine(adler1: nat, adler2: nat, len2: nat)
    requires adler1 % 65536 < BASE && adler1 / 65536 % 65536 < BASE
    requires adler2 % 65536 < BASE && adler2 / 65536 % 65536 < BASE
    ensures CombineReduces(adler1, adler2, len2)
  {
    var product := len2 % BASE * (adler1 % 65536);
    assert product % BASE < BASE;
  }

  /** ... but not all numbers do: with lower halves of 65535 a sum of 3 * BASE or more remains. */
  lemma NotAlwaysCombined(len2: nat)
    ensures !CombineReduces(65535, 65535, len2)
  {
  }

  /** sum1 | (sum2 << 16), where sum1 may have a seventeenth bit. */
  function Joined(sum1: nat, sum2: nat): nat {
    if sum1 < 65536 then Combined(sum1, sum2)
    else Combined(sum1 - 65536, if sum2 % 2 == 0 then sum2 + 1 else sum2)
  }

  /** With the sums reduced the result is the combination, and only then. */
  method Adler32Combine(adler1: nat, adler2: nat, len2: int) returns (r: nat)
    requires len2 < 0x8000_0000_0000_0000
    ensures len2 < 0 ==> r == 0xffff_ffff
    ensures len2 >= 0 ==>
              var a1, b1, a2, b2 := adler1 % 65536, adler1 / 65536 % 65536, adler2 % 65536, adler2 / 65536 % 65536;
              r == Combined((a1 + a2 + BASE - 1) % BASE, (b1 + b2 + BASE - len2 % BASE + len2 % BASE * a1) % BASE)
              <==> CombineReduces(adler1, adler2, len2)
  {
    hide Mod, Mod63, Combined, Joined;
    if len2 < 0 { return 0xffff_ffff; }
    Mod63Exact(len2);
    var rem: nat := Mod63(len2);
    var a1, b1, a2, b2 := adler1 % 65536, adler1 / 65536 % 65536, adler2 % 65536, adler2 / 65536 % 65536;
    var sum1: nat := a1;
    var sum2: nat := ScaledSum(rem, sum1);
    sum1 := sum1 + a2 + BASE - 1;
    sum2 := sum2 + b1 + b2 + BASE - rem;
    SameRemainder(rem * a1, b1 + b2 + BASE - rem);
    ghost var total1, total2 := sum1, sum2;
    if sum1 >= BASE { sum1 := sum1 - BASE; }
    if sum1 >= BASE { sum1 := sum1 - BASE; }
    if sum2 >= 2 * BASE { sum2 := sum2 - 2 * BASE; }
    if sum2 >= BASE { sum2 := sum2 - BASE; }
    r := Joined(sum1, sum2);
    JoinedIs(total1, total2, sum1, sum2);
  }

  lemma JoinedIs(total1: nat, total2: nat, sum1: nat, sum2: nat)
    requires BASE - 1 <= total1 <= 2 * 65535 + BASE - 1 && total2 < 5 * BASE
    requires sum1 == if total1 < BASE then total1 else if total1 < 2 * BASE then total1 - BASE else total1 - 2 * BASE
    requires sum2 == total2 - BASE * (if total2 < BASE then 0 else if total2 < 2 * BASE then 1
                                      else if total2 < 3 * BASE then 2 else 3)
    ensures Joined(sum1, sum2) == Combined(total1 % BASE, total2 % BASE) <==>
            total1 < 3 * BASE && total2 < 4 * BASE
  {
    Reduced(total1);
    Reduced(total2);
    DifferentHalves(sum1, sum2, total1 % BASE, total2 % BASE);
  }

  lemma Reduced(x: nat)
    requires x < 5 * BASE
    ensures x % BASE == x - BASE * (if x < BASE then 0 else if x < 2 * BASE then 1 else if x < 3 * BASE then 2
                                    else if x < 4 * BASE then 3 else 4)
  {
  }

  lemma DifferentHalves(sum1: nat, sum2: nat, a: nat, b: nat)
    requires a < BASE && b < BASE && sum1 < BASE + 28
    requires sum1 >= BASE ==> a == sum1 - BASE
    ensures Joined(sum1, sum2) == Combined(a, b) <==> sum1 == a && sum2 == b
  {
  }

  /** The product of a reduced number and a 16-bit one still fits in 32 bits. */
  method ScaledSum(rem: nat, sum1: nat) returns (sum2: nat)
    requires rem < BASE && sum1 < 65536
    ensures sum2 == rem * sum1 % BASE && rem * sum1 >= 0
  {
    hide Mod;
    MulMonotonic(rem, BASE - 1, sum1, 65535);
    NonNegative(rem, sum1);
    sum2 := rem * sum1;
    ModExact(sum2);
    sum2 := Mod(sum2);
  }

  lemma SameRemainder(x: nat, y: nat)
    ensures (x % BASE + y) % BASE == (x + y) % BASE
  {
    Multiples(x % BASE + y, x / BASE);
    assert x % BASE + y + BASE * (x / BASE) == x + y;
  }

  /** Combining the checksums of two strings gives that of their concatenation. */
  lemma CombineIsConcat(s: seq<Byte>, t: seq<Byte>)
    ensures var a1, b1, a2, b2 := SumA(1, s) % BASE, SumB(1, 0, s) % BASE, SumA(1, t) % BASE, SumB(1, 0, t) % BASE;
      && SumA(1, s + t) % BASE == (a1 + a2 + BASE - 1) % BASE
      && SumB(1, 0, s + t) % BASE == (b1 + b2 + BASE - |t| % BASE + |t| % BASE * a1) % BASE
  {
    hide SumA, SumB;
    var n := |t|;
    SumConcat(1, 0, s, t);
    SumShift(SumA(1, s), SumB(1, 0, s), t);
    SumShift(1, 0, t);
    var x, y, u, v := SumA(1, s), SumB(1, 0, s), SumA(1, t), SumB(1, 0, t);
    assert SumA(1, s + t) == x + u - 1;
    assert SumB(1, 0, s + t) == y + n * x + v - n;
    FirstHalf(x, u);
    SecondHalf(x, y, v, n, SumB(1, 0, s + t));
  }

  lemma FirstHalf(x: nat, u: nat)
    requires u >= 1
    ensures (x + u - 1) % BASE == (x % BASE + u % BASE + BASE - 1) % BASE
  {
    Multiples(x % BASE + u % BASE + BASE - 1, x / BASE + u / BASE);
    assert x % BASE + u % BASE + BASE - 1 + BASE * (x / BASE + u / BASE) == x + u - 1 + BASE * 1;
    Multiples(x + u - 1, 1);
  }

  lemma SecondHalf(x: nat, y: nat, v: nat, n: nat, total: nat)
    requires total == y + n * x + v - n
    ensures total % BASE == (y % BASE + v % BASE + BASE - n % BASE + n % BASE * (x % BASE)) % BASE
  {
    var a, rem, k := x % BASE, n % BASE, n / BASE;
    assert x == a + BASE * (x / BASE) && n == rem + BASE * k;
    NonNegative(rem, a);
    NonNegative(n, x / BASE);
    NonNegative(k, a);
    var reduced: nat := y % BASE + v % BASE + BASE - rem + rem * a;
    assert n * x == n * a + BASE * (n * (x / BASE)) by { Spread(n, a, x / BASE); }
    assert n * a == rem * a + BASE * (k * a) by { SpreadLeft(rem, k, a); }
    var lift: nat := y / BASE + v / BASE + n * (x / BASE) + k * a;
    assert total + BASE * (k + 1) == reduced + BASE * lift;
    Multiples(reduced, lift);
    Multiples(total, k + 1);
  }

  lemma SpreadLeft(r: int, k: int, a: int)
    ensures (r + BASE * k) * a == r * a + BASE * (k * a)
  {
  }

  /** adler32(A), adler32(B) and the length of B give adler32(A ++ B). */
  method CombineChecksums(s: seq<Byte>, t: seq<Byte>) returns (r: nat)
    requires |t| < 0x8000_0000_0000_0000
    ensures r == Adler(1, s + t)
  {
    hide SumA, SumB;
    ChecksumsReduce(1, s);
    ChecksumsReduce(1, t);
    var adler1 := Adler32(1, s);
    var adler2 := Adler32(1, t);
    Halves(SumA(1, s) % BASE, SumB(1, 0, s) % BASE);
    Halves(SumA(1, t) % BASE, SumB(1, 0, t) % BASE);
    CombineIsConcat(s, t);
    ChecksumsCombine(adler1, adler2, |t|);
    r := Adler32Combine(adler1, adler2, |t|);
  }
}
