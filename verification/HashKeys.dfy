/** deflate's rolling hash: the key of three bytes, updated one byte at a time. */
module HashKeys {
  import opened Permutations
  import opened Bits
  import opened BitFields
  import opened Gf2

  const MIN_MATCH := 3

  /** UPDATE_HASH: ((h << shift) ^ c) & mask. */
  function Update(h: nat, c: Byte, shift: nat, bits: nat): (r: nat)
    ensures r < Pow2(bits)
  {
    Low(Xor(h * Pow2(shift), c), bits)
  }

  /** The key of three bytes. */
  function Key(a: Byte, b: Byte, c: Byte, shift: nat, bits: nat): (r: nat)
    ensures r < Pow2(bits)
  {
    Update(Update(a, b, shift, bits), c, shift, bits)
  }

  /** The hash parameters that deflate uses: at least as many bits as a byte has, all of which are
      replaced by three updates. */
  predicate Parameters(shift: nat, bits: nat) {
    8 <= bits && bits <= MIN_MATCH * shift
  }

  // ---- shifts and masks distribute over exclusive or ----

  lemma {:induction false} LowXor(x: nat, y: nat, n: nat)
    ensures Low(Xor(x, y), n) == Xor(Low(x, n), Low(y, n))
    decreases n
  {
    hide Xor, Low;
    if n == 0 {
      NoLowBits(x);
      NoLowBits(y);
      NoLowBits(Xor(x, y));
      XorZero(0);
    } else {
      LowHalf(x, n);
      LowHalf(y, n);
      LowHalf(Xor(x, y), n);
      XorStep(x, y);
      LowXor(x / 2, y / 2, n - 1);
      XorJoined(Low(x / 2, n - 1), x % 2, Low(y / 2, n - 1), y % 2);
    }
  }

  lemma NoLowBits(x: nat)
    ensures Low(x, 0) == 0
  {
    Pow2Of1();
  }

  lemma XorJoined(x: nat, a: nat, y: nat, b: nat)
    requires a < 2 && b < 2
    ensures Xor(2 * x + a, 2 * y + b) == 2 * Xor(x, y) + (a + b) % 2
  {
    hide Xor;
    Joined(x, a);
    Joined(y, b);
    XorHalves(2 * x + a, 2 * y + b);
  }

  lemma Joined(q: nat, r: nat)
    requires r < 2
    ensures (2 * q + r) / 2 == q && (2 * q + r) % 2 == r
  {
  }

  lemma LowHalf(x: nat, n: nat)
    requires n > 0
    ensures Low(x, n) == 2 * Low(x / 2, n - 1) + x % 2
  {
    hide Pow2;
    var p := Pow2(n - 1);
    Pow2Step(n - 1);
    DivModIs(x / 2, p);
    var q, r := x / 2 / p, x / 2 % p;
    Associates(2, p, q);
    QuotientIs(x, 2 * p, q, 2 * r + x % 2);
  }

  lemma {:induction false} XorShift(x: nat, y: nat, n: nat)
    ensures Xor(x, y) * Pow2(n) == Xor(x * Pow2(n), y * Pow2(n))
    decreases n
  {
    hide Xor, Pow2;
    Pow2Of1();
    if n > 0 {
      var p := Pow2(n - 1);
      Pow2Step(n - 1);
      Regroup(x, p);
      Regroup(y, p);
      Regroup(Xor(x, y), p);
      Joined(x * p, 0);
      Joined(y * p, 0);
      XorHalves(2 * (x * p), 2 * (y * p));
      XorShift(x, y, n - 1);
    }
  }

  /** Masked bits do not come back. */
  lemma LowShift(x: nat, n: nat, k: nat)
    ensures Low(Low(x, n) * Pow2(k), n) == Low(x * Pow2(k), n)
  {
    hide Pow2;
    var p, q := Pow2(n), Pow2(k);
    Reassemble(x, n);
    Spread(Low(x, n), High(x, n), p, q);
    DivModIs(Low(x, n) * q, p);
    var d := Low(x, n) * q / p;
    Commutes(p, High(x, n) * q);
    Nest(p, 1, d, High(x, n) * q);
    QuotientIs(x * q, p, d + High(x, n) * q, Low(x, n) * q % p);
  }

  lemma Spread(l: nat, h: nat, p: nat, q: nat)
    ensures (l + h * p) * q == l * q + (h * q) * p
  {
  }

  lemma ShiftOut(x: nat, n: nat, k: nat)
    requires n <= k
    ensures Low(x * Pow2(k), n) == 0
  {
    hide Pow2;
    Pow2Add(n, k - n);
    Associates(x, Pow2(k - n), Pow2(n));
    Commutes(Pow2(k - n), Pow2(n));
    Commutes(x * Pow2(k - n), Pow2(n));
    QuotientIs(x * Pow2(k), Pow2(n), x * Pow2(k - n), 0);
  }

  lemma ByteRange()
    ensures Pow2(8) == 256
  {
    assert Pow2(4) == 16;
    Pow2Add(4, 4);
  }

  lemma ByteFits(c: Byte, bits: nat)
    requires bits >= 8
    ensures c < Pow2(bits) && Low(c, bits) == c
  {
    hide Pow2;
    Pow2Monotonic(8, bits);
    ByteRange();
    LowOfAll(c, bits);
  }

  /** An update, with the mask on the shifted part alone. */
  lemma UpdateIs(h: nat, c: Byte, shift: nat, bits: nat)
    requires bits >= 8
    ensures Update(h, c, shift, bits) == Xor(Low(h * Pow2(shift), bits), c)
  {
    hide Xor, Pow2, Low;
    LowXor(h * Pow2(shift), c, bits);
    ByteFits(c, bits);
  }

  /** What an update leaves of the value before it. */
  ghost function Shifted(h: nat, shift: nat, bits: nat): nat { Low(h * Pow2(shift), bits) }

  lemma ShiftedUpdate(h: nat, c: Byte, shift: nat, bits: nat)
    requires bits >= 8
    ensures Shifted(Update(h, c, shift, bits), shift, bits) ==
            Xor(Shifted(Shifted(h, shift, bits), shift, bits), Low(c * Pow2(shift), bits))
  {
    hide Xor, Pow2, Low, Update;
    UpdateIs(h, c, shift, bits);
    XorShift(Shifted(h, shift, bits), c, shift);
    LowXor(Shifted(h, shift, bits) * Pow2(shift), c * Pow2(shift), bits);
  }

  lemma ShiftedTwice(h: nat, shift: nat, bits: nat)
    ensures Shifted(Shifted(h, shift, bits), shift, bits) == Low(h * Pow2(shift + shift), bits)
  {
    hide Pow2, Low;
    LowShift(h * Pow2(shift), bits, shift);
    Pow2Add(shift, shift);
    Associates(h, Pow2(shift), Pow2(shift));
  }

  lemma ShiftedThrice(h: nat, shift: nat, bits: nat)
    requires Parameters(shift, bits)
    ensures Shifted(Shifted(Shifted(h, shift, bits), shift, bits), shift, bits) == 0
  {
    hide Pow2, Low;
    ShiftedTwice(h, shift, bits);
    LowShift(h * Pow2(shift + shift), bits, shift);
    Pow2Add(shift + shift, shift);
    Associates(h, Pow2(shift + shift), Pow2(shift));
    ShiftOut(h, bits, shift + shift + shift);
  }

  // ---- the rolling key ----

  /** The running hash is ready for the string that begins with a and b: one more byte gives its key. */
  ghost predicate Rolled(h: nat, a: Byte, b: Byte, shift: nat, bits: nat) {
    Shifted(h, shift, bits) == Shifted(Update(a, b, shift, bits), shift, bits)
  }

  lemma RolledKey(h: nat, a: Byte, b: Byte, c: Byte, shift: nat, bits: nat)
    requires bits >= 8 && Rolled(h, a, b, shift, bits)
    ensures Update(h, c, shift, bits) == Key(a, b, c, shift, bits)
  {
    hide Low, Xor, Update, Pow2;
    UpdateIs(h, c, shift, bits);
    UpdateIs(Update(a, b, shift, bits), c, shift, bits);
  }

  /** After three updates the oldest byte no longer takes part. */
  lemma RolledOn(a: Byte, b: Byte, c: Byte, shift: nat, bits: nat)
    requires Parameters(shift, bits)
    ensures Rolled(Key(a, b, c, shift, bits), b, c, shift, bits)
  {
    hide Low, Xor, Update, Pow2, Shifted;
    ShiftedUpdate(Update(a, b, shift, bits), c, shift, bits);
    ShiftedUpdate(a, b, shift, bits);
    ShiftedUpdate(b, c, shift, bits);
    var lost, kept := Shifted(Shifted(a, shift, bits), shift, bits), Low(b * Pow2(shift), bits);
    assert Shifted(b, shift, bits) == kept by { ShiftedIs(b, shift, bits); }
    ShiftedXor(lost, kept, shift, bits);
    ShiftedThrice(a, shift, bits);
    XorZero(Shifted(kept, shift, bits));
  }

  lemma ShiftedIs(b: nat, shift: nat, bits: nat)
    ensures Shifted(b, shift, bits) == Low(b * Pow2(shift), bits)
  {
  }

  lemma ShiftedXor(x: nat, y: nat, shift: nat, bits: nat)
    ensures Shifted(Xor(x, y), shift, bits) == Xor(Shifted(x, shift, bits), Shifted(y, shift, bits))
  {
    hide Low, Xor, Pow2;
    XorShift(x, y, shift);
    LowXor(x * Pow2(shift), y * Pow2(shift), bits);
  }

  /** Strings with the same key that agree in two bytes agree in the third. */
  lemma KeyDecides(a: Byte, b: Byte, c: Byte, c': Byte, shift: nat, bits: nat)
    requires bits >= 8 && Key(a, b, c, shift, bits) == Key(a, b, c', shift, bits)
    ensures c == c'
  {
    hide Low, Xor, Update, Pow2;
    var h := Update(a, b, shift, bits);
    UpdateIs(h, c, shift, bits);
    UpdateIs(h, c', shift, bits);
    XorCancels(Low(h * Pow2(shift), bits), c, c');
  }

  lemma XorCancels(x: nat, y: nat, z: nat)
    requires Xor(x, y) == Xor(x, z)
    ensures y == z
  {
    hide Xor;
    XorAssociates(x, x, y);
    XorAssociates(x, x, z);
    XorSelf(x);
    XorZero(y);
    XorZero(z);
  }
}
