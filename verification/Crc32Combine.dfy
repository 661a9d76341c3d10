/** crc32_combine_: the checksum of a concatenation from the checksums of its parts, by raising the zero operator to a
    power through repeated squaring of its matrix. */
module Crc32Combine {
  import opened Permutations
  import opened Bits
  import opened Gf2
  import opened Crc32

  const GF2_DIM := 32

  /** The matrix of the operator for k zero bits: column n is its value at the n-th unit vector. */
  ghost predicate IsOperator(mat: seq<nat>, k: nat) {
    |mat| == GF2_DIM && forall n | 0 <= n < GF2_DIM :: mat[n] == Steps(Pow2(n), k)
  }

  /** gf2_matrix_times. */
  method MatrixTimes(mat: array<nat>, vec0: nat, ghost k: nat) returns (sum: nat)
    requires IsOperator(mat[..], k) && vec0 <= ONES
    ensures sum == Steps(vec0, k) && sum <= ONES
  {
    hide Xor, Steps, IsOperator, Splits, Pow2;
    sum := 0;
    var vec: nat, n: nat := vec0, 0;
    ghost var low: nat := 0;
    StepsOfZero(k);
    SplitsStart(vec0);
    OperatorSize(mat[..], k);
    while vec != 0
      invariant 0 <= n <= GF2_DIM && Splits(vec0, vec, n, low) && sum == Steps(low, k)
      decreases vec
    {
      InRange(vec, n, vec0, low);
      OperatorAt(mat[..], k, n);
      NextBit(vec0, low, vec, n);
      if vec % 2 == 1 {
        StepsLinear(low, Pow2(n), k);
        sum := Xor(sum, mat[n]);
      }
      low := if vec % 2 == 1 then Xor(low, Pow2(n)) else low;
      vec := vec / 2;
      n := n + 1;
    }
    SplitsEnd(vec0, n, low);
    StepsBounded(vec0, k);
  }

  /** The low n bits have been taken off. */
  ghost predicate Splits(vec0: nat, vec: nat, n: nat, low: nat) {
    vec0 == vec * Pow2(n) + low && low < Pow2(n)
  }

  lemma SplitsStart(vec0: nat)
    ensures Splits(vec0, vec0, 0, 0)
  {
  }

  lemma SplitsEnd(vec0: nat, n: nat, low: nat)
    requires Splits(vec0, 0, n, low)
    ensures low == vec0
  {
  }

  lemma OperatorAt(mat: seq<nat>, k: nat, n: nat)
    requires IsOperator(mat, k) && n < GF2_DIM
    ensures |mat| == GF2_DIM && mat[n] == Steps(Pow2(n), k)
  {
    hide Steps;
  }

  lemma {:induction false} StepsOfZero(k: nat)
    ensures Steps(0, k) == 0
  {
    hide Xor;
    if k > 0 { StepsOfZero(k - 1); }
    XorZero(0);
  }

  lemma InRange(vec: nat, n: nat, v: nat, low: nat)
    requires vec != 0 && Splits(v, vec, n, low) && v <= ONES
    ensures n < GF2_DIM
  {
    Word32();
    if n >= GF2_DIM { Pow2Monotonic(32, n); }
    AtLeastOnce(vec, Pow2(n));
  }

  lemma AtLeastOnce(x: nat, p: nat)
    requires x != 0
    ensures x * p >= p
  {
  }

  lemma NextBit(vec0: nat, low: nat, vec: nat, n: nat)
    requires Splits(vec0, vec, n, low)
    ensures Splits(vec0, vec / 2, n + 1, if vec % 2 == 1 then Xor(low, Pow2(n)) else low)
  {
    hide Xor;
    var p, h, b := Pow2(n), vec / 2, vec % 2;
    Regroup(h, p);
    assert vec == 2 * h + b;
    Spread2(h, b, p);
    XorDisjoint(1, low, n);
    XorCommutes(low, p);
    assert 1 * p == p && 0 * p == 0;
  }

  lemma Spread2(h: int, b: int, p: int)
    ensures (2 * h + b) * p == 2 * (h * p) + b * p
  {
  }

  /** gf2_matrix_square: the operator applied twice. */
  method MatrixSquare(square: array<nat>, mat: array<nat>, ghost k: nat)
    requires IsOperator(mat[..], k) && square.Length == GF2_DIM && square != mat
    modifies square
    ensures IsOperator(square[..], 2 * k)
  {
    hide Steps;
    for n := 0 to GF2_DIM
      invariant mat[..] == old(mat[..]) && forall m | 0 <= m < n :: square[m] == Steps(Pow2(m), 2 * k)
    {
      assert mat[..][n] == mat[n];
      Word32();
      UnitBounded(n);
      StepsBounded(Pow2(n), k);
      StepsAdd(Pow2(n), k, k);
      square[n] := MatrixTimes(mat, mat[n], k);
    }
  }

  lemma UnitBounded(n: nat)
    requires n < GF2_DIM
    ensures Pow2(n) <= ONES
  {
    Word32();
    Pow2Monotonic(n, 31);
    assert Pow2(32) == 2 * Pow2(31);
  }

  /** The matrix for one zero bit: the polynomial, then the units shifted down. */
  method OneZeroBit(odd: array<nat>)
    requires odd.Length == GF2_DIM
    modifies odd
    ensures IsOperator(odd[..], 1)
  {
    hide Xor, Steps, Pow2;
    Pow2Of1();
    odd[0] := POLY;
    var row: nat := 1;
    for n := 1 to GF2_DIM
      invariant row == Pow2(n - 1) && odd[0] == POLY
      invariant forall m | 1 <= m < n :: odd[m] == Pow2(m - 1)
    {
      odd[n] := row;
      Pow2Step(n - 1);
      row := row * 2;
    }
    forall n | 0 <= n < GF2_DIM ensures odd[n] == Steps(Pow2(n), 1) {
      StepOfUnit(n);
    }
  }

  lemma StepOfUnit(n: nat)
    ensures Steps(Pow2(n), 1) == if n == 0 then POLY else Pow2(n - 1)
  {
    hide Xor, Step;
    assert Steps(Pow2(n), 1) == Step(Steps(Pow2(n), 0));
    if n == 0 {
      assert Pow2(0) == 1;
      StepOfOne();
    } else {
      StepDouble(Pow2(n - 1));
    }
  }

  lemma StepOfOne()
    ensures Step(1) == POLY
  {
    hide Xor;
    XorZero(POLY);
  }

  /** Applies the operator for 8 * len zero bits: the bits of len select, lowest first, from its repeated squares. */
  method ApplyZeros(crc0: nat, len0: nat, even: array<nat>, odd: array<nat>) returns (crc: nat)
    requires even.Length == GF2_DIM && even != odd && IsOperator(odd[..], 4) && crc0 <= ONES && len0 > 0
    modifies even, odd
    ensures crc == Steps(crc0, 8 * len0) && crc <= ONES
  {
    hide Steps, IsOperator;
    crc := crc0;
    var len := len0;
    ghost var k, done: nat := 4, 0;
    OperatorSize(odd[..], k);
    assert Steps(crc0, 0) == crc0 by { NoSteps(crc0); }
    while true
      invariant k >= 4 && IsOperator(odd[..], k) && odd.Length == GF2_DIM && len > 0
      invariant done + 2 * k * len == 8 * len0 && crc == Steps(crc0, done) && crc <= ONES
      decreases len
    {
      MatrixSquare(even, odd, k);
      crc, done := ApplyBit(even, crc, len, 2 * k, crc0, done);
      HalfBit(k, len);
      len := len / 2;
      if len == 0 { break; }
      MatrixSquare(odd, even, 2 * k);
      crc, done := ApplyBit(odd, crc, len, 4 * k, crc0, done);
      HalfBit(2 * k, len);
      len := len / 2;
      k := 4 * k;
      if len == 0 { break; }
    }
  }

  lemma OperatorSize(mat: seq<nat>, k: nat)
    requires IsOperator(mat, k)
    ensures |mat| == GF2_DIM
  {
  }

  lemma HalfBit(k: nat, len: nat)
    ensures 2 * k * len == 2 * (2 * k) * (len / 2) + (len % 2) * (2 * k)
  {
    var h, b := len / 2, len % 2;
    assert len == 2 * h + b;
    Rearrange(k, h, b);
  }

  lemma Rearrange(k: int, h: int, b: int)
    ensures 2 * k * (2 * h + b) == 2 * (2 * k) * h + b * (2 * k)
  {
  }

  /** One bit of the length. */
  method ApplyBit(mat: array<nat>, crc: nat, len: nat, ghost k: nat, ghost crc0: nat, ghost done0: nat)
    returns (r: nat, ghost done: nat)
    requires IsOperator(mat[..], k) && crc == Steps(crc0, done0) && crc <= ONES
    ensures r == Steps(crc0, done) && r <= ONES && done == done0 + (len % 2) * k
  {
    hide Steps;
    r, done := crc, done0;
    if len % 2 == 1 {
      StepsAdd(crc0, done0, k);
      r := MatrixTimes(mat, crc, k);
      done := done0 + k;
    }
  }

  /** crc32_combine_. A length that is not positive leaves the first checksum as it is. */
  method Crc32Combine(crc1: nat, crc2: nat, len2: int) returns (crc: nat)
    requires crc1 <= ONES && crc2 <= ONES
    ensures len2 <= 0 ==> crc == crc1
    ensures len2 > 0 ==> crc == Xor(Steps(crc1, 8 * len2), crc2)
  {
    hide Steps, Xor, IsOperator;
    if len2 <= 0 { return crc1; }
    var even, odd := new nat[GF2_DIM], new nat[GF2_DIM];
    OneZeroBit(odd);
    MatrixSquare(even, odd, 1);
    MatrixSquare(odd, even, 2);
    crc := ApplyZeros(crc1, len2, even, odd);
    crc := Xor(crc, crc2);
  }

  /** Combining two checksums gives the checksum of the concatenation, whatever the strings and the starting value. */
  lemma CombineIsConcat(crc: nat, s: seq<Byte>, t: seq<Byte>)
    requires crc <= ONES
    ensures Crc(crc, s) <= ONES && Crc(0, t) <= ONES
    ensures Xor(Steps(Crc(crc, s), 8 * |t|), Crc(0, t)) == Crc(crc, s + t)
  {
    hide Xor, Steps, Register;
    Word32();
    XorZero(ONES);
    XorBounded(crc, ONES, 32);
    RegisterBounded(Xor(crc, ONES), s);
    RegisterBounded(ONES, t);
    var a, b := Register(Xor(crc, ONES), s), Register(ONES, t);
    XorBounded(a, ONES, 32);
    XorBounded(b, ONES, 32);
    RegisterConcat(Xor(crc, ONES), s, t);
    ComplementTwice(a);
    XorCommutes(Xor(a, ONES), ONES);
    RegisterLinear(ONES, Xor(a, ONES), t);
    var z := Steps(Xor(a, ONES), 8 * |t|);
    assert Register(a, t) == Xor(b, z);
    XorCommutes(b, z);
    XorAssociates(z, b, ONES);
  }

  /** With an empty second string the same holds without any operator being applied. */
  lemma CombineEmpty(crc: nat, s: seq<Byte>)
    ensures Crc(crc, s + []) == Crc(crc, s)
  {
    assert s + [] == s;
  }

  /** crc32(A), crc32(B) and the length of B give crc32(A ++ B). */
  method CombineChecksums(tables: array2<nat>, a: seq<Byte>, b: seq<Byte>) returns (crc: nat)
    requires IsTables(tables)
    ensures crc == Crc(0, a + b)
  {
    hide Xor, Steps, Register, IsTables, Crc;
    var crc1 := Checksum(tables, 0, a);
    var crc2 := Checksum(tables, 0, b);
    crc := Crc32Combine(crc1, crc2, |b|);
    if |b| > 0 {
      CombineIsConcat(0, a, b);
    } else {
      CombineEmpty(0, a);
      assert b == [];
    }
  }
}
