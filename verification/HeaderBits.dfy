/** bhtab: one bucket-header bit per position, packed in 32-bit words, with the word-at-a-time scans
    of fallbackSort. */
module HeaderBits {

  /** 1 << k. */
  function Mask(k: nat): bv32
    requires k < 32
  {
    if k == 0 then 1 else Mask(k - 1) << 1
  }

  predicate Meets(w: bv32, m: bv32) { w & m != 0 }
  function Or(w: bv32, m: bv32): bv32 { w | m }
  function AndNot(w: bv32, m: bv32): bv32 { w & !m }

  predicate WordBit(w: bv32, k: nat)
    requires k < 32
  {
    Meets(w, Mask(k))
  }

  function WithBit(w: bv32, k: nat): bv32
    requires k < 32
  {
    Or(w, Mask(k))
  }

  function WithoutBit(w: bv32, k: nat): bv32
    requires k < 32
  {
    AndNot(w, Mask(k))
  }

  /** Bit i of the packed table (ISSET_BH). */
  predicate IsSet(t: seq<bv32>, i: int)
    requires 0 <= i < 32 * |t|
  {
    WordBit(t[i / 32], i % 32)
  }

  lemma MaskLiterals()
    ensures Mask(0) == 0x1 && Mask(1) == 0x2 && Mask(2) == 0x4 && Mask(3) == 0x8
    ensures Mask(4) == 0x10 && Mask(5) == 0x20 && Mask(6) == 0x40 && Mask(7) == 0x80
    ensures Mask(8) == 0x100 && Mask(9) == 0x200 && Mask(10) == 0x400 && Mask(11) == 0x800
    ensures Mask(12) == 0x1000 && Mask(13) == 0x2000 && Mask(14) == 0x4000 && Mask(15) == 0x8000
    ensures Mask(16) == 0x1_0000 && Mask(17) == 0x2_0000 && Mask(18) == 0x4_0000 && Mask(19) == 0x8_0000
    ensures Mask(20) == 0x10_0000 && Mask(21) == 0x20_0000 && Mask(22) == 0x40_0000 && Mask(23) == 0x80_0000
    ensures Mask(24) == 0x100_0000 && Mask(25) == 0x200_0000 && Mask(26) == 0x400_0000 && Mask(27) == 0x800_0000
    ensures Mask(28) == 0x1000_0000 && Mask(29) == 0x2000_0000 && Mask(30) == 0x4000_0000 && Mask(31) == 0x8000_0000
  {
  }

  lemma MaskNonZero(k: nat)
    requires k < 32
    ensures Mask(k) != 0
  {
    MaskLiterals();
  }

  lemma ShiftMissesLowBit(x: bv32)
    ensures !Meets(x << 1, 1) && !Meets(1, x << 1)
  {
  }

  lemma ShiftDisjoint(x: bv32, y: bv32)
    requires !Meets(x, y)
    ensures !Meets(x << 1, y << 1)
  {
  }

  lemma {:induction false} MaskDisjoint(i: nat, j: nat)
    requires i < 32 && j < 32 && i != j
    ensures !Meets(Mask(i), Mask(j))
    decreases i
  {
    hide Meets;
    if i == 0 {
      ShiftMissesLowBit(Mask(j - 1));
    } else if j == 0 {
      ShiftMissesLowBit(Mask(i - 1));
    } else {
      MaskDisjoint(i - 1, j - 1);
      ShiftDisjoint(Mask(i - 1), Mask(j - 1));
    }
  }

  lemma OrSame(w: bv32, m: bv32)
    requires m != 0
    ensures Meets(Or(w, m), m)
  {
  }

  lemma OrOther(w: bv32, m: bv32, n: bv32)
    requires !Meets(m, n)
    ensures Meets(Or(w, m), n) <==> Meets(w, n)
  {
  }

  lemma AndNotSame(w: bv32, m: bv32)
    ensures !Meets(AndNot(w, m), m)
  {
  }

  lemma AndNotOther(w: bv32, m: bv32, n: bv32)
    requires !Meets(m, n)
    ensures Meets(AndNot(w, m), n) <==> Meets(w, n)
  {
  }

  lemma AllOnes(w: bv32, k: nat)
    requires k < 32 && w == 0xffff_ffff
    ensures WordBit(w, k)
  {
    MaskNonZero(k);
    OnesAnd(Mask(k));
  }

  lemma OnesAnd(m: bv32)
    ensures 0xffff_ffff & m == m
  {
  }

  lemma AllZero(w: bv32, k: nat)
    requires k < 32 && w == 0
    ensures !WordBit(w, k)
  {
    ZeroAnd(Mask(k));
  }

  lemma ZeroAnd(m: bv32)
    ensures 0 & m == 0
  {
  }

  lemma WordBitChanges(w: bv32, k: nat, j: nat)
    requires k < 32 && j < 32
    ensures WordBit(WithBit(w, k), j) <==> j == k || WordBit(w, j)
    ensures WordBit(WithoutBit(w, k), j) <==> j != k && WordBit(w, j)
  {
    hide Mask, Meets, Or, AndNot;
    if k == j {
      MaskNonZero(k);
      OrSame(w, Mask(k));
      AndNotSame(w, Mask(k));
    } else {
      MaskDisjoint(k, j);
      OrOther(w, Mask(k), Mask(j));
      AndNotOther(w, Mask(k), Mask(j));
    }
  }

  lemma BitChanges(t: seq<bv32>, i: int, j: int)
    requires 0 <= i < 32 * |t| && 0 <= j < 32 * |t|
    ensures IsSet(t[i / 32 := WithBit(t[i / 32], i % 32)], j) <==> j == i || IsSet(t, j)
    ensures IsSet(t[i / 32 := WithoutBit(t[i / 32], i % 32)], j) <==> j != i && IsSet(t, j)
  {
    hide WordBit, WithBit, WithoutBit;
    WordBitChanges(t[i / 32], i % 32, j % 32);
  }

  /** SET_BH. */
  method SetBit(bhtab: array<bv32>, i: int)
    requires 0 <= i < 32 * bhtab.Length
    modifies bhtab
    ensures forall j | 0 <= j < 32 * bhtab.Length :: IsSet(bhtab[..], j) <==> j == i || IsSet(old(bhtab[..]), j)
  {
    hide WithBit, WithoutBit, IsSet;
    ghost var t := bhtab[..];
    bhtab[i / 32] := WithBit(bhtab[i / 32], i % 32);
    assert bhtab[..] == t[i / 32 := WithBit(t[i / 32], i % 32)];
    forall j | 0 <= j < 32 * bhtab.Length
      ensures IsSet(bhtab[..], j) <==> j == i || IsSet(t, j)
    {
      BitChanges(t, i, j);
    }
  }

  /** CLEAR_BH. */
  method ClearBit(bhtab: array<bv32>, i: int)
    requires 0 <= i < 32 * bhtab.Length
    modifies bhtab
    ensures forall j | 0 <= j < 32 * bhtab.Length :: IsSet(bhtab[..], j) <==> j != i && IsSet(old(bhtab[..]), j)
  {
    hide WithBit, WithoutBit, IsSet;
    ghost var t := bhtab[..];
    bhtab[i / 32] := WithoutBit(bhtab[i / 32], i % 32);
    assert bhtab[..] == t[i / 32 := WithoutBit(t[i / 32], i % 32)];
    forall j | 0 <= j < 32 * bhtab.Length
      ensures IsSet(bhtab[..], j) <==> j != i && IsSet(t, j)
    {
      BitChanges(t, i, j);
    }
  }

  lemma FullWord(t: seq<bv32>, k: int)
    requires 0 <= k < 32 * |t| && k % 32 == 0 && t[k / 32] == 0xffff_ffff
    ensures forall j | k <= j < k + 32 :: 0 <= j < 32 * |t| && IsSet(t, j)
  {
    forall j | k <= j < k + 32 ensures 0 <= j < 32 * |t| && IsSet(t, j) {
      AllOnes(t[k / 32], j % 32);
    }
  }

  lemma EmptyWord(t: seq<bv32>, k: int)
    requires 0 <= k < 32 * |t| && k % 32 == 0 && t[k / 32] == 0
    ensures forall j | k <= j < k + 32 :: 0 <= j < 32 * |t| && !IsSet(t, j)
  {
    forall j | k <= j < k + 32 ensures 0 <= j < 32 * |t| && !IsSet(t, j) {
      AllZero(t[k / 32], j % 32);
    }
  }

  lemma ClearWordClear(t: seq<bv32>, k: int)
    requires 0 <= k < 32 * |t| && t[k / 32] == 0
    ensures !IsSet(t, k)
  {
    AllZero(t[k / 32], k % 32);
  }

  /** The scan over set bits: bit by bit to a word boundary, then by whole words of ones, then bit by
      bit again. It stops at the first clear bit; some clear bit must exist. */
  method NextClear(bhtab: array<bv32>, from: int, ghost stop: int) returns (k: int)
    requires 0 <= from <= stop < 32 * bhtab.Length && !IsSet(bhtab[..], stop)
    ensures from <= k <= stop && !IsSet(bhtab[..], k)
    ensures forall j | from <= j < k :: IsSet(bhtab[..], j)
  {
    hide IsSet;
    k := from;
    while IsSet(bhtab[..], k) && k % 32 != 0
      invariant from <= k <= stop
      invariant forall j | from <= j < k :: IsSet(bhtab[..], j)
      decreases stop - k
    {
      k := k + 1;
    }
    if IsSet(bhtab[..], k) {
      while bhtab[k / 32] == 0xffff_ffff
        invariant from <= k <= stop && k % 32 == 0
        invariant forall j | from <= j < k :: IsSet(bhtab[..], j)
        decreases stop - k
      {
        FullWord(bhtab[..], k);
        k := k + 32;
      }
      while IsSet(bhtab[..], k)
        invariant from <= k <= stop
        invariant forall j | from <= j < k :: IsSet(bhtab[..], j)
        decreases stop - k
      {
        k := k + 1;
      }
    }
  }

  /** The same scan over clear bits. */
  method NextSet(bhtab: array<bv32>, from: int, ghost stop: int) returns (k: int)
    requires 0 <= from <= stop < 32 * bhtab.Length && IsSet(bhtab[..], stop)
    ensures from <= k <= stop && IsSet(bhtab[..], k)
    ensures forall j | from <= j < k :: !IsSet(bhtab[..], j)
  {
    hide IsSet;
    k := from;
    while !IsSet(bhtab[..], k) && k % 32 != 0
      invariant from <= k <= stop
      invariant forall j | from <= j < k :: !IsSet(bhtab[..], j)
      decreases stop - k
    {
      k := k + 1;
    }
    if !IsSet(bhtab[..], k) {
      while bhtab[k / 32] == 0
        invariant from <= k <= stop && k % 32 == 0
        invariant forall j | from <= j < k :: !IsSet(bhtab[..], j)
        decreases stop - k
      {
        EmptyWord(bhtab[..], k);
        k := k + 32;
      }
      while !IsSet(bhtab[..], k)
        invariant from <= k <= stop
        invariant forall j | from <= j < k :: !IsSet(bhtab[..], j)
        decreases stop - k
      {
        k := k + 1;
      }
    }
  }
}
