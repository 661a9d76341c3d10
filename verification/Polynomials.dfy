/** Polynomials over GF(2) as numbers, bit i being the coefficient of x^i: sums, products, and remainders. */
module Polynomials {
  import opened Bits
  import opened Gf2

  /** The product of q and p. */
  function Times(q: nat, p: nat): nat {
    if q == 0 then 0 else Xor(2 * Times(q / 2, p), if q % 2 == 1 then p else 0)
  }

  /** a times x^n. */
  function Up(a: nat, n: nat): (r: nat)
    ensures r == a * Pow2(n)
  {
    NotNegative(a, Pow2(n));
    a * Pow2(n)
  }

  lemma NotNegative(a: nat, b: nat)
    ensures a * b >= 0
  {
  }

  /** a and b differ by a multiple of p. */
  ghost predicate Congruent(a: nat, b: nat, p: nat) {
    exists q: nat :: a == Xor(b, Times(q, p))
  }

  /** r is what remains of a when it is divided by p, a polynomial of degree n. */
  ghost predicate IsRemainder(r: nat, a: nat, p: nat, n: nat) {
    r < Pow2(n) && Congruent(a, r, p)
  }

  // ---- calculating with products ----

  lemma XorDouble(a: nat, b: nat)
    ensures Xor(2 * a, 2 * b) == 2 * Xor(a, b)
  {
    hide Xor;
    XorHalves(2 * a, 2 * b);
  }

  lemma {:induction false} XorShift(a: nat, b: nat, n: nat)
    ensures Xor(a * Pow2(n), b * Pow2(n)) == Xor(a, b) * Pow2(n)
  {
    hide Xor;
    if n == 0 {
      Pow2Of1();
    } else {
      XorShift(a, b, n - 1);
      XorDouble(a * Pow2(n - 1), b * Pow2(n - 1));
      Regroup(a, Pow2(n - 1));
      Regroup(b, Pow2(n - 1));
      Regroup(Xor(a, b), Pow2(n - 1));
    }
  }

  lemma TimesStep(q: nat, p: nat)
    ensures Times(q, p) == Xor(2 * Times(q / 2, p), if q % 2 == 1 then p else 0)
  {
    hide Xor;
    if q == 0 { XorZero(0); }
  }

  lemma {:induction false} TimesSum(q: nat, q': nat, p: nat)
    ensures Times(Xor(q, q'), p) == Xor(Times(q, p), Times(q', p))
    decreases q + q'
  {
    hide Xor, Times;
    if q == 0 && q' == 0 {
      XorZero(0);
      TimesNone(p);
    } else {
      TimesSum(q / 2, q' / 2, p);
      TimesStep(q, p);
      TimesStep(q', p);
      TimesStep(Xor(q, q'), p);
      XorStep(q, q');
      var a, b := Times(q / 2, p), Times(q' / 2, p);
      XorDouble(a, b);
      XorSwap(2 * a, if q % 2 == 1 then p else 0, 2 * b, if q' % 2 == 1 then p else 0);
      OnceOrTwice(q % 2, q' % 2, p);
    }
  }

  lemma TimesNone(p: nat)
    ensures Times(0, p) == 0
  {
  }

  lemma OnceOrTwice(x: nat, y: nat, p: nat)
    requires x < 2 && y < 2
    ensures Xor(if x == 1 then p else 0, if y == 1 then p else 0) == if (x + y) % 2 == 1 then p else 0
  {
    hide Xor;
    XorZero(p);
    XorZero(0);
    XorSelf(p);
  }

  lemma {:induction false} TimesShift(q: nat, p: nat, n: nat)
    ensures Times(q * Pow2(n), p) == Times(q, p) * Pow2(n)
  {
    hide Xor, Times;
    if n == 0 {
      Pow2Of1();
    } else {
      TimesShift(q, p, n - 1);
      Regroup(q, Pow2(n - 1));
      Regroup(Times(q, p), Pow2(n - 1));
      TimesStep(q * Pow2(n), p);
      XorZero(2 * Times(q * Pow2(n - 1), p));
    }
  }

  // ---- congruence ----

  lemma CongruentSelf(a: nat, p: nat)
    ensures Congruent(a, a, p)
  {
    hide Xor;
    TimesNone(p);
    XorZero(a);
    assert a == Xor(a, Times(0, p));
  }

  lemma CongruentTrans(a: nat, b: nat, c: nat, p: nat)
    requires Congruent(a, b, p) && Congruent(b, c, p)
    ensures Congruent(a, c, p)
  {
    hide Xor, Times;
    var q: nat :| a == Xor(b, Times(q, p));
    var r: nat :| b == Xor(c, Times(r, p));
    XorAssociates(c, Times(r, p), Times(q, p));
    TimesSum(r, q, p);
    assert a == Xor(c, Times(Xor(r, q), p));
  }

  lemma CongruentSum(a: nat, b: nat, c: nat, p: nat)
    requires Congruent(a, b, p)
    ensures Congruent(Xor(a, c), Xor(b, c), p)
  {
    hide Xor, Times;
    var q: nat :| a == Xor(b, Times(q, p));
    var t := Times(q, p);
    XorAssociates(b, t, c);
    XorCommutes(t, c);
    XorAssociates(b, c, t);
    assert Xor(a, c) == Xor(Xor(b, c), Times(q, p));
  }

  lemma CongruentShift(a: nat, b: nat, n: nat, p: nat)
    requires Congruent(a, b, p)
    ensures Congruent(a * Pow2(n), b * Pow2(n), p)
  {
    hide Xor, Times, Pow2;
    var q: nat :| a == Xor(b, Times(q, p));
    XorShift(b, Times(q, p), n);
    TimesShift(q, p, n);
    assert a * Pow2(n) == Xor(b * Pow2(n), Times(q * Pow2(n), p));
  }

  /** Taking p away once. */
  lemma CongruentLess(a: nat, p: nat)
    ensures Congruent(a, Xor(a, p), p)
  {
    hide Xor, Times;
    TimesStep(1, p);
    TimesNone(p);
    XorZero(p);
    XorZero(0);
    XorAssociates(a, p, p);
    XorSelf(p);
    XorZero(a);
    assert a == Xor(Xor(a, p), Times(1, p));
  }

  // ---- remainders are unique ----

  /** A product with a polynomial of degree n is 0 or of degree n at least. */
  lemma {:induction false} TimesLarge(q: nat, p: nat, n: nat)
    requires Pow2(n) <= p < Pow2(n + 1) && q > 0
    ensures Times(q, p) >= Pow2(n)
    decreases q
  {
    hide Xor, Times, Pow2;
    TimesStep(q, p);
    if q == 1 {
      TimesNone(p);
      XorZero(p);
    } else {
      TimesLarge(q / 2, p, n);
      Pow2Step(n);
      TopStays(2 * Times(q / 2, p), if q % 2 == 1 then p else 0, n + 1);
    }
  }

  /** Adding what is below x^n leaves what is above as it is. */
  lemma {:induction false} TopStays(a: nat, b: nat, n: nat)
    requires a >= Pow2(n) && b < Pow2(n)
    ensures Xor(a, b) >= Pow2(n)
    decreases n
  {
    hide Xor;
    if n == 0 {
      XorZero(a);
    } else {
      TopStays(a / 2, b / 2, n - 1);
      XorHalves(a, b);
    }
  }

  lemma RemainderUnique(r: nat, s: nat, a: nat, p: nat, n: nat)
    requires Pow2(n) <= p < Pow2(n + 1) && IsRemainder(r, a, p, n) && IsRemainder(s, a, p, n)
    ensures r == s
  {
    hide Xor, Times, Pow2;
    var q: nat :| a == Xor(r, Times(q, p));
    var t: nat :| a == Xor(s, Times(t, p));
    var x, y := Times(q, p), Times(t, p);
    Cancel(r, x, s, y);
    TimesSum(q, t, p);
    XorBounded(r, s, n);
    if Xor(q, t) > 0 { TimesLarge(Xor(q, t), p, n); }
    TimesNone(p);
    SumZeroEqual(r, s);
  }

  lemma Cancel(r: nat, x: nat, s: nat, y: nat)
    requires Xor(r, x) == Xor(s, y)
    ensures Xor(r, s) == Xor(x, y)
  {
    hide Xor;
    XorSwap(r, x, s, y);
    XorSelf(Xor(r, x));
    SumZeroEqual(Xor(r, s), Xor(x, y));
  }

  lemma SumZeroEqual(a: nat, b: nat)
    ensures Xor(a, b) == 0 ==> a == b
  {
    hide Xor;
    XorAssociates(a, b, b);
    XorSelf(b);
    XorZero(a);
    XorZero(b);
  }
}
