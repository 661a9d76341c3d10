/** Bit fields of numbers: the low bits, and what is left above them. */
module BitFields {
  import opened Bits

  /** The low n bits of x... */
  function Low(x: nat, n: nat): (r: nat)
    ensures r < Pow2(n)
  {
    x % Pow2(n)
  }

  /** ... and what is left above them. */
  function High(x: nat, n: nat): nat {
    NonNegativeQuotient(x, Pow2(n));
    x / Pow2(n)
  }

  /** The n bits that come after the first m. */
  function After(hold: nat, m: nat, n: nat): nat {
    High(Low(hold, m + n), m)
  }

  lemma NonNegativeQuotient(x: nat, p: nat)
    requires p > 0
    ensures x / p >= 0
  {
  }

  lemma DivModIs(h: nat, p: nat)
    requires p > 0
    ensures h == p * (h / p) + h % p
  {
  }

  lemma RemainderFrom(h: nat, p: nat, q: nat)
    requires p > 0 && h / p == q
    ensures h % p == h - p * q
  {
  }

  lemma Product(a: nat, b: nat)
    ensures a * b >= 0
  {
  }

  lemma NextMultiple(a: nat, b: nat, p: nat)
    requires a < b
    ensures a * p + p <= b * p
  {
    assert b * p == (a + 1) * p + (b - a - 1) * p;
    Product(b - a - 1, p);
  }

  lemma AddOne(a: nat, p: nat)
    ensures (a + 1) * p == a * p + p
  {
  }

  lemma Nest(p: nat, k: nat, q: nat, r: nat)
    ensures (p * k) * q + p * r == p * (k * q + r)
  {
  }

  lemma Commutes(a: nat, b: nat)
    ensures a * b == b * a
  {
  }

  lemma Associates(a: nat, b: nat, c: nat)
    ensures a * (b * c) == (a * b) * c
  {
  }

  lemma LowLow(h: nat, m: nat, n: nat)
    requires m <= n
    ensures Low(Low(h, n), m) == Low(h, m)
  {
    hide Pow2;
    var p, k := Pow2(m), Pow2(n - m);
    Pow2Add(m, n - m);
    DivModIs(h, Pow2(n));
    DivModIs(h % Pow2(n), p);
    var q, r := h / Pow2(n), h % Pow2(n);
    Nest(p, k, q, r / p);
    QuotientIs(h, p, k * q + r / p, r % p);
  }

  /** The low m + n bits, by parts. */
  lemma LowSplit(h: nat, m: nat, n: nat)
    ensures Low(h, m + n) == Pow2(m) * Low(High(h, m), n) + Low(h, m)
    ensures After(h, m, n) == Low(High(h, m), n)
  {
    hide Pow2;
    var p, k := Pow2(m), Pow2(n);
    Pow2Add(m, n);
    var q, r := h / p, h % p;
    DivModIs(h, p);
    DivModIs(q, k);
    var low := p * (q % k) + r;
    Nest(p, k, q / k, q % k);
    NextMultiple(q % k, k, p);
    Commutes(p, q % k);
    Commutes(p, k);
    QuotientIs(h, p * k, q / k, low);
    QuotientIs(low, p, q % k, r);
  }

  /** Dropping in two steps. */
  lemma DropTwice(x: nat, m: nat, n: nat)
    ensures High(High(x, m), n) == High(x, m + n)
  {
    hide Pow2;
    var p, q := Pow2(m), Pow2(n);
    Pow2Add(m, n);
    var y := x / p;
    DivModIs(x, p);
    DivModIs(y, q);
    Nest(p, q, y / q, y % q);
    NextMultiple(y % q, q, p);
    Commutes(p, q);
    Commutes(p, y % q);
    QuotientIs(x, p * q, y / q, p * (y % q) + x % p);
  }

  lemma HighFits(x: nat, m: nat, n: nat)
    requires x < Pow2(m + n)
    ensures High(x, m) < Pow2(n)
  {
    hide Pow2;
    Pow2Add(m, n);
    DivModIs(x, Pow2(m));
    if High(x, m) >= Pow2(n) {
      if High(x, m) > Pow2(n) { NextMultiple(Pow2(n), High(x, m), Pow2(m)); }
      Commutes(Pow2(m), x / Pow2(m));
      Commutes(Pow2(m), Pow2(n));
      assert false;
    }
  }

  lemma LowOfAll(x: nat, n: nat)
    requires x < Pow2(n)
    ensures Low(x, n) == x
  {
    hide Pow2;
    QuotientIs(x, Pow2(n), 0, x);
  }

  lemma Reassemble(x: nat, n: nat)
    ensures x == Low(x, n) + High(x, n) * Pow2(n)
  {
    hide Pow2;
    DivModIs(x, Pow2(n));
    Commutes(Pow2(n), x / Pow2(n));
  }
}
