/** Exclusive-or on numbers, bit by bit: addition of vectors over GF(2). */
module Gf2 {
  import opened Bits

  function Xor(x: nat, y: nat): (z: nat)
    decreases x + y
  {
    if x == 0 && y == 0 then 0 else 2 * Xor(x / 2, y / 2) + (x % 2 + y % 2) % 2
  }

  lemma XorStep(x: nat, y: nat)
    ensures Xor(x, y) / 2 == Xor(x / 2, y / 2) && Xor(x, y) % 2 == (x % 2 + y % 2) % 2
  {
  }

  lemma {:induction false} XorZero(x: nat)
    ensures Xor(x, 0) == x && Xor(0, x) == x
    decreases x
  {
    if x > 0 { XorZero(x / 2); }
  }

  lemma {:induction false} XorSelf(x: nat)
    ensures Xor(x, x) == 0
    decreases x
  {
    if x > 0 { XorSelf(x / 2); }
  }

  lemma {:induction false} XorCommutes(x: nat, y: nat)
    ensures Xor(x, y) == Xor(y, x)
    decreases x + y
  {
    if x > 0 || y > 0 { XorCommutes(x / 2, y / 2); }
  }

  lemma {:induction false} XorAssociates(x: nat, y: nat, z: nat)
    ensures Xor(Xor(x, y), z) == Xor(x, Xor(y, z))
    decreases x + y + z
  {
    hide Xor;
    if x > 0 || y > 0 || z > 0 {
      XorAssociates(x / 2, y / 2, z / 2);
      XorStep(x, y);
      XorStep(y, z);
      XorHalves(Xor(x, y), z);
      XorHalves(x, Xor(y, z));
    } else {
      XorZero(0);
    }
  }

  lemma XorHalves(x: nat, y: nat)
    ensures Xor(x, y) == 2 * Xor(x / 2, y / 2) + (x % 2 + y % 2) % 2
  {
    hide Xor;
    XorStep(x, y);
    var z := Xor(x, y);
    assert z == 2 * (z / 2) + z % 2;
  }

  lemma XorSwap(a: nat, b: nat, c: nat, d: nat)
    ensures Xor(Xor(a, b), Xor(c, d)) == Xor(Xor(a, c), Xor(b, d))
  {
    hide Xor;
    XorAssociates(a, b, Xor(c, d));
    XorAssociates(b, c, d);
    XorCommutes(b, c);
    XorAssociates(c, b, d);
    XorAssociates(a, c, Xor(b, d));
  }

  lemma {:induction false} XorBounded(x: nat, y: nat, n: nat)
    requires x < Pow2(n) && y < Pow2(n)
    ensures Xor(x, y) < Pow2(n)
    decreases n
  {
    if n > 0 {
      XorBounded(x / 2, y / 2, n - 1);
      XorHalves(x, y);
    } else {
      XorZero(0);
    }
  }

  /** Vectors without a common position add up. */
  lemma {:induction false} XorDisjoint(h: nat, r: nat, n: nat)
    requires r < Pow2(n)
    ensures Xor(h * Pow2(n), r) == h * Pow2(n) + r
    decreases n
  {
    hide Xor;
    var p := h * Pow2(n);
    if n == 0 {
      XorZero(h);
      assert p == h;
    } else {
      assert p == 2 * (h * Pow2(n - 1)) by { Regroup(h, Pow2(n - 1)); }
      XorDisjoint(h, r / 2, n - 1);
      XorHalves(p, r);
    }
  }
}
