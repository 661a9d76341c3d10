/** Numbers with their bits in the opposite order. */
module ReversedBits {
  import opened Bits
  import opened BitFields

  /** The low n bits of v in the opposite order. */
  ghost function Reverse(v: nat, n: nat): (r: nat)
    ensures r < Pow2(n)
  {
    if n == 0 then 0 else (v % 2) * Pow2(n - 1) + Reverse(v / 2, n - 1)
  }

  lemma ReverseDouble(v: nat, n: nat)
    ensures Reverse(2 * v, n + 1) == Reverse(v, n)
    ensures Reverse(2 * v + 1, n + 1) == Pow2(n) + Reverse(v, n)
  {
    hide Pow2;
    assert 2 * v / 2 == v && (2 * v + 1) / 2 == v;
  }

  lemma {:induction false} ReverseShift(v: nat, n: nat, k: nat)
    ensures Reverse(v * Pow2(k), n + k) == Reverse(v, n)
  {
    if k == 0 {
      Pow2Of1();
    } else {
      ReverseShift(v, n, k - 1);
      Regroup(v, Pow2(k - 1));
      ReverseDouble(v * Pow2(k - 1), n + k - 1);
    }
  }

  lemma Halves(h: nat, l: nat)
    requires l > 0
    ensures (h % Pow2(l)) % 2 == h % 2
    ensures (h % Pow2(l)) / 2 == (h / 2) % Pow2(l - 1)
  {
    var q, r := h / 2 / Pow2(l - 1), h / 2 % Pow2(l - 1);
    var p := Pow2(l - 1);
    assert h / 2 == p * q + r by { DivModIs(h / 2, p); }
    assert h == 2 * (p * q) + (2 * r + h % 2);
    assert Pow2(l) * q == 2 * (p * q) by { Regroup3(p, q); }
    QuotientIs(h, Pow2(l), q, 2 * r + h % 2);
    assert h % Pow2(l) == 2 * r + h % 2 by { RemainderFrom(h, Pow2(l), q); }
  }

  lemma Regroup3(p: nat, q: nat)
    ensures (2 * p) * q == 2 * (p * q)
  {
  }

  /** The high bits of the reversal are the reversal of the low bits. */
  lemma {:induction false} ReverseTop(h: nat, l: nat, n: nat)
    requires l <= n
    ensures Reverse(h, n) / Pow2(n - l) == Reverse(h % Pow2(l), l)
    decreases n
  {
    hide Pow2;
    Pow2Of1();
    var d := Pow2(n - l);
    if l == 0 {
      QuotientIs(Reverse(h, n), d, 0, Reverse(h, n));
    } else {
      ReverseTop(h / 2, l - 1, n - 1);
      Halves(h, l);
      var low := Reverse(h / 2, n - 1);
      DivModIs(low, d);
      Pow2Add(n - l, l - 1);
      var q := (h % 2) * Pow2(l - 1) + low / d;
      assert Reverse(h, n) == d * q + low % d by {
        TopTerm(d, h % 2, Pow2(l - 1), low / d);
      }
      QuotientIs(Reverse(h, n), d, q, low % d);
    }
  }

  lemma TopTerm(d: nat, b: nat, p: nat, q: nat)
    ensures b * (d * p) + d * q == d * (b * p + q)
  {
  }

  /** The lowest bit of the reversal is the highest bit. */
  lemma {:induction false} ReverseBottom(v: nat, n: nat)
    requires n > 0 && v < Pow2(n)
    ensures Reverse(v, n) == 2 * Reverse(v % Pow2(n - 1), n - 1) + v / Pow2(n - 1)
    decreases n
  {
    hide Pow2;
    Pow2Of1();
    Pow2Step(n - 1);
    if n > 1 {
      Pow2Step(n - 2);
      ReverseBottom(v / 2, n - 1);
      Halves(v, n - 1);
      assert v / 2 / Pow2(n - 2) == v / Pow2(n - 1) by { HalfQuotient(v, Pow2(n - 2)); }
      Regroup(v % 2, Pow2(n - 2));
    }
  }

  lemma ReverseStep(v: nat, n: nat)
    requires n > 0
    ensures Reverse(v, n) == Pow2(n - 1) * (v % 2) + Reverse(v / 2, n - 1)
  {
  }

  lemma {:induction false} ReverseTwice(v: nat, n: nat)
    requires v < Pow2(n)
    ensures Reverse(Reverse(v, n), n) == v
    decreases n, 1
  {
    if n > 0 { ReverseTwiceStep(v, n); }
  }

  lemma {:induction false} ReverseTwiceStep(v: nat, n: nat)
    requires n > 0 && v < Pow2(n)
    ensures Reverse(Reverse(v, n), n) == v
    decreases n, 0
  {
    hide Pow2, Reverse;
    Pow2Step(n - 1);
    ReverseTwice(v / 2, n - 1);
    ReverseStep(v, n);
    ReverseBottom(Reverse(v, n), n);
    QuotientIs(Reverse(v, n), Pow2(n - 1), v % 2, Reverse(v / 2, n - 1));
    RemainderFrom(Reverse(v, n), Pow2(n - 1), v % 2);
  }
}
