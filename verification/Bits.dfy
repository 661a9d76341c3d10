/** Numbers as bit strings, most significant bit first. */
module Bits {

  function Pow2(n: nat): (p: nat)
    ensures p >= 1
  {
    if n == 0 then 1 else 2 * Pow2(n - 1)
  }

  lemma {:induction false} Pow2Add(m: nat, n: nat)
    ensures Pow2(m + n) == Pow2(m) * Pow2(n)
  {
    if n > 0 { Pow2Add(m, n - 1); }
  }

  lemma {:induction false} Pow2Monotonic(m: nat, n: nat)
    requires m <= n
    ensures Pow2(m) <= Pow2(n)
    decreases n
  {
    if m < n { Pow2Monotonic(m, n - 1); }
  }

  lemma Pow2Of1()
    ensures Pow2(0) == 1 && Pow2(1) == 2
  {
    assert Pow2(0) == 1;
  }

  lemma PowersTo32()
    ensures Pow2(0) == 0x1 && Pow2(1) == 0x2 && Pow2(2) == 0x4 && Pow2(3) == 0x8
    ensures Pow2(4) == 0x10 && Pow2(5) == 0x20 && Pow2(6) == 0x40 && Pow2(7) == 0x80
    ensures Pow2(8) == 0x100 && Pow2(9) == 0x200 && Pow2(10) == 0x400 && Pow2(11) == 0x800
    ensures Pow2(12) == 0x1000 && Pow2(13) == 0x2000 && Pow2(14) == 0x4000 && Pow2(15) == 0x8000
    ensures Pow2(16) == 0x10000 && Pow2(17) == 0x20000 && Pow2(18) == 0x40000 && Pow2(19) == 0x80000
    ensures Pow2(20) == 0x100000 && Pow2(21) == 0x200000 && Pow2(22) == 0x400000 && Pow2(23) == 0x800000
    ensures Pow2(24) == 0x1000000 && Pow2(25) == 0x2000000 && Pow2(26) == 0x4000000 && Pow2(27) == 0x8000000
    ensures Pow2(28) == 0x10000000 && Pow2(29) == 0x20000000 && Pow2(30) == 0x40000000 && Pow2(31) == 0x80000000
    ensures Pow2(32) == 0x100000000
  {
    hide Pow2;
    Pow2Of1();
    Pow2Step(1);
    Pow2Step(2);
    Pow2Step(3);
    Pow2Step(4);
    Pow2Step(5);
    Pow2Step(6);
    Pow2Step(7);
    Pow2Step(8);
    Pow2Step(9);
    Pow2Step(10);
    Pow2Step(11);
    Pow2Step(12);
    Pow2Step(13);
    Pow2Step(14);
    Pow2Step(15);
    Pow2Step(16);
    Pow2Step(17);
    Pow2Step(18);
    Pow2Step(19);
    Pow2Step(20);
    Pow2Step(21);
    Pow2Step(22);
    Pow2Step(23);
    Pow2Step(24);
    Pow2Step(25);
    Pow2Step(26);
    Pow2Step(27);
    Pow2Step(28);
    Pow2Step(29);
    Pow2Step(30);
    Pow2Step(31);
  }

  lemma Pow2Step(n: nat)
    ensures Pow2(n + 1) == 2 * Pow2(n)
  {
  }

  /** The low n bits of v. */
  function ToBits(v: nat, n: nat): (r: seq<bool>)
    ensures |r| == n
  {
    if n == 0 then [] else ToBits(v / 2, n - 1) + [v % 2 == 1]
  }

  /** The number a bit string spells. */
  function Value(bits: seq<bool>): (v: nat)
    ensures v < Pow2(|bits|)
  {
    if bits == [] then 0 else 2 * Value(bits[..|bits| - 1]) + if bits[|bits| - 1] then 1 else 0
  }

  lemma {:induction false} ValueToBits(v: nat, n: nat)
    requires v < Pow2(n)
    ensures Value(ToBits(v, n)) == v
  {
    if n > 0 {
      ValueToBits(v / 2, n - 1);
      assert ToBits(v, n)[..n - 1] == ToBits(v / 2, n - 1);
    }
  }

  lemma {:induction false} ToBitsValue(bits: seq<bool>)
    ensures ToBits(Value(bits), |bits|) == bits
  {
    if bits != [] {
      var front := bits[..|bits| - 1];
      ToBitsValue(front);
      assert Value(bits) / 2 == Value(front);
      assert bits == front + [bits[|bits| - 1]];
    }
  }

  lemma ValueAppend(bits: seq<bool>, bit: bool)
    ensures Value(bits + [bit]) == 2 * Value(bits) + if bit then 1 else 0
  {
    assert (bits + [bit])[..|bits|] == bits;
  }

  lemma HalfQuotient(v: nat, p: nat)
    requires p > 0
    ensures v / (2 * p) == (v / 2) / p
  {
    var q, r := (v / 2) / p, (v / 2) % p;
    assert v / 2 == p * q + r;
    assert v == (2 * p) * q + (2 * r + v % 2);
    QuotientIs(v, 2 * p, q, 2 * r + v % 2);
  }

  lemma QuotientIs(x: int, d: int, q: int, r: int)
    requires d > 0 && 0 <= r < d && x == d * q + r
    ensures x / d == q && x % d == r
  {
    var q', r' := x / d, x % d;
    assert x == d * q' + r';
    assert d * (q - q') == r' - r by { MulMinus(d, q, q'); }
    MulBound(d, q - q');
  }

  lemma MulMinus(d: int, q: int, q': int)
    ensures d * (q - q') == d * q - d * q'
  {
  }

  lemma MulBound(d: int, k: int)
    requires d > 0
    ensures k >= 1 ==> d * k >= d
    ensures k <= -1 ==> d * k <= -d
  {
  }

  /** The low m + n bits are the low m bits of the quotient by 2^n, then the low n bits. */
  lemma {:induction false} SplitBits(v: nat, m: nat, n: nat)
    ensures v / Pow2(n) >= 0
    ensures ToBits(v, m + n) == ToBits(v / Pow2(n), m) + ToBits(v, n)
    decreases n
  {
    if n > 0 {
      SplitBits(v / 2, m, n - 1);
      HalfQuotient(v, Pow2(n - 1));
      assert ToBits(v, m + n) == ToBits(v / 2, m + n - 1) + [v % 2 == 1];
    }
  }

  /** Higher bits do not matter. */
  lemma {:induction false} LowBits(h: nat, r: nat, k: nat, n: nat)
    requires n <= k
    ensures ToBits(h * Pow2(k) + r, n) == ToBits(r, n)
    decreases n
  {
    if n > 0 {
      var p := Pow2(k - 1);
      assert h * Pow2(k) == 2 * (h * p) by { Regroup(h, p); }
      assert (h * Pow2(k) + r) / 2 == h * p + r / 2;
      LowBits(h, r / 2, k - 1, n - 1);
    }
  }

  lemma Regroup(h: int, p: int)
    ensures h * (2 * p) == 2 * (h * p)
  {
  }

  /** Putting the bits of r below those of h. */
  lemma JoinBits(h: nat, r: nat, m: nat, n: nat)
    requires r < Pow2(n)
    ensures ToBits(h * Pow2(n) + r, m + n) == ToBits(h, m) + ToBits(r, n)
  {
    var v := h * Pow2(n) + r;
    SplitBits(v, m, n);
    QuotientIs(v, Pow2(n), h, r);
    LowBits(h, r, n, n);
  }

  lemma {:induction false} ZeroBits(n: nat)
    ensures ToBits(0, n) == seq(n, _ => false)
  {
    if n > 0 { ZeroBits(n - 1); }
  }

  /** The bits of a sequence of bytes. */
  function BytesToBits(bytes: seq<int>): (r: seq<bool>)
    requires forall i | 0 <= i < |bytes| :: bytes[i] >= 0
    ensures |r| == 8 * |bytes|
  {
    if bytes == [] then [] else BytesToBits(bytes[..|bytes| - 1]) + ToBits(bytes[|bytes| - 1], 8)
  }

  lemma BytesAppend(bytes: seq<int>, c: int)
    requires c >= 0 && forall i | 0 <= i < |bytes| :: bytes[i] >= 0
    ensures BytesToBits(bytes + [c]) == BytesToBits(bytes) + ToBits(c, 8)
  {
    assert (bytes + [c])[..|bytes|] == bytes;
  }

  lemma {:induction false} BytesHead(bytes: seq<int>)
    requires |bytes| > 0 && forall i | 0 <= i < |bytes| :: bytes[i] >= 0
    ensures BytesToBits(bytes) == ToBits(bytes[0], 8) + BytesToBits(bytes[1..])
  {
    var front, last := bytes[..|bytes| - 1], bytes[|bytes| - 1];
    if |bytes| == 1 {
      assert bytes[1..] == [];
      assert front == [];
    } else {
      BytesHead(front);
      assert bytes[1..][..|bytes| - 2] == front[1..];
    }
  }
}
