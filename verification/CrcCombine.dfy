/** Combining checksums: the register moved on by many zero bits at once, by matrices over
    GF(2) that are squared again and again. */
module CrcCombine {
  import opened Rotations
  import opened Gf2
  import opened Crc32

  const GF2_DIM := 32

  function Unit(i: nat): bv32 { Up(1, i) }

  /** The lowest bit and the others. */
  lemma LowestBit(v: bv32)
    ensures v == if Odd(v) then Xor(1, Double(Half(v))) else Double(Half(v))
  {
  }

  lemma BitAt(v: bv32, i: nat)
    ensures Up(v, i) == if Odd(v) then Xor(Unit(i), Up(Half(v), i + 1)) else Up(Half(v), i + 1)
  {
    hide Odd, Half, Double, Xor;
    LowestBit(v);
    if Odd(v) { UpXor(1, Double(Half(v)), i); }
  }

  // ---- thirty-two bits are all there are ----

  lemma {:induction false} HalfTimesAdd(v: bv32, m: nat, n: nat)
    ensures HalfTimes(v, m + n) == HalfTimes(HalfTimes(v, m), n)
    decreases m
  {
    hide Half;
    if m > 0 {
      HalfTimesAdd(Half(v), m - 1, n);
      assert m + n - 1 == m - 1 + n;
    }
  }

  function ByteOff(v: bv32): bv32 { v >> 8 }

  lemma EightHalves(v: bv32)
    ensures HalfTimes(v, 8) == ByteOff(v)
  {
    HalvesOf(v);
    hide Half;
    assert HalfTimes(v >> 8, 0) == v >> 8;
    assert HalfTimes(v >> 7, 1) == v >> 8;
    assert HalfTimes(v >> 6, 2) == v >> 8;
    assert HalfTimes(v >> 5, 3) == v >> 8;
    assert HalfTimes(v >> 4, 4) == v >> 8;
    assert HalfTimes(v >> 3, 5) == v >> 8;
    assert HalfTimes(v >> 2, 6) == v >> 8;
    assert HalfTimes(v >> 1, 7) == v >> 8;
  }

  lemma HalvesOf(x: bv32)
    ensures Half(x) == x >> 1 && Half(x >> 1) == x >> 2 && Half(x >> 2) == x >> 3 && Half(x >> 3) == x >> 4
    ensures Half(x >> 4) == x >> 5 && Half(x >> 5) == x >> 6 && Half(x >> 6) == x >> 7 && Half(x >> 7) == x >> 8
  {
  }

  lemma ShiftOut(v: bv32)
    ensures ByteOff(ByteOff(ByteOff(ByteOff(v)))) == 0
  {
  }

  lemma NothingLeft(v: bv32)
    ensures HalfTimes(v, 32) == 0
  {
    hide HalfTimes, ByteOff;
    var a, b, c := ByteOff(v), ByteOff(ByteOff(v)), ByteOff(ByteOff(ByteOff(v)));
    EightHalves(v);
    EightHalves(a);
    EightHalves(b);
    EightHalves(c);
    HalfTimesAdd(v, 8, 24);
    HalfTimesAdd(a, 8, 16);
    HalfTimesAdd(b, 8, 8);
    ShiftOut(v);
  }

  // ---- matrices ----

  /** mat moves the register on by n zero bits: column i is what happens to bit i. */
  ghost predicate Moves(mat: seq<bv32>, n: nat) {
    |mat| == GF2_DIM && forall i :: 0 <= i < GF2_DIM ==> mat[i] == Zeros(Unit(i), n)
  }

  lemma TimesStep(vec0: bv32, sum: bv32, vec: bv32, i: nat, n: nat)
    requires Zeros(vec0, n) == Xor(sum, Zeros(Up(vec, i), n))
    ensures Zeros(vec0, n) ==
              Xor(if Odd(vec) then Xor(sum, Zeros(Unit(i), n)) else sum, Zeros(Up(Half(vec), i + 1), n))
  {
    hide Zeros, Xor, Up, Odd, Half, Unit;
    BitAt(vec, i);
    if Odd(vec) {
      ZerosLinear(Unit(i), Up(Half(vec), i + 1), n);
      XorAssociates(sum, Zeros(Unit(i), n), Zeros(Up(Half(vec), i + 1), n));
    }
  }

  /** The product: the sum of the columns named by the bits of the vector. */
  method MatrixTimes(mat: array<bv32>, vec0: bv32, ghost n: nat) returns (sum: bv32)
    requires Moves(mat[..], n)
    ensures sum == Zeros(vec0, n)
  {
    hide Zeros, Xor, Up, Odd, Half, Unit;
    sum := 0;
    var vec, i := vec0, 0;
    NothingLeft(vec0);
    TimesStart(vec0, n);
    while vec != 0
      invariant 0 <= i <= 32 && HalfTimes(vec, 32 - i) == 0
      invariant Zeros(vec0, n) == Xor(sum, Zeros(Up(vec, i), n))
      decreases 32 - i
    {
      StillRoom(vec, 32 - i);
      TimesStep(vec0, sum, vec, i, n);
      assert mat[i] == mat[..][i];
      if Odd(vec) { sum := Xor(sum, mat[i]); }
      vec := Half(vec);
      i := i + 1;
    }
    UpZero(i);
    ZerosOfZero(n);
    XorZero(sum);
  }

  lemma TimesStart(vec: bv32, n: nat)
    ensures Zeros(vec, n) == Xor(0, Zeros(Up(vec, 0), n))
  {
    hide Zeros;
    XorZero(Zeros(vec, n));
  }

  lemma StillRoom(vec: bv32, k: nat)
    requires vec != 0 && HalfTimes(vec, k) == 0
    ensures k > 0 && HalfTimes(Half(vec), k - 1) == 0
  {
  }

  /** The square of a matrix moves twice as far. */
  method MatrixSquare(square: array<bv32>, mat: array<bv32>, ghost n: nat)
    requires square != mat && square.Length == GF2_DIM && Moves(mat[..], n)
    modifies square
    ensures Moves(square[..], 2 * n)
  {
    hide Zeros, Unit;
    for i := 0 to GF2_DIM
      invariant Moves(mat[..], n)
      invariant forall k :: 0 <= k < i ==> square[k] == Zeros(Unit(k), 2 * n)
    {
      ZerosAdd(Unit(i), n, n);
      assert n + n == 2 * n;
      assert mat[i] == mat[..][i];
      square[i] := MatrixTimes(mat, mat[i], n);
    }
  }

  // ---- one zero bit ----

  /** Doubling v up to k times loses no bit. */
  ghost predicate Clear(v: bv32, k: nat)
    decreases k
  {
    !TopSet(v) && (k > 0 ==> Clear(Double(v), k - 1))
  }

  lemma OneIsClear()
    ensures Clear(1, 30)
  {
    assert Clear(0x0100_0000, 6);
    assert Clear(0x0010_0000, 10);
    assert Clear(0x0001_0000, 14);
    assert Clear(0x1000, 18);
    assert Clear(0x0100, 22);
    assert Clear(0x10, 26);
  }

  lemma {:induction false} UpClear(v: bv32, k: nat, i: nat)
    requires Clear(v, k) && i <= k
    ensures !TopSet(Up(v, i))
    decreases i
  {
    hide TopSet, Double;
    if i > 0 { UpClear(Double(v), k - 1, i - 1); }
  }

  lemma StepBack(v: bv32)
    requires !TopSet(v)
    ensures ZeroBit(Double(v)) == v
  {
  }

  /** The operator for one zero bit. */
  method OneZeroBit(odd: array<bv32>)
    requires odd.Length == GF2_DIM
    modifies odd
    ensures Moves(odd[..], 1)
  {
    hide Double, TopSet, Clear, ZeroBit;
    odd[0] := POLYNOMIAL;
    FirstColumn();
    OneIsClear();
    var row: bv32 := 1;
    for i := 1 to GF2_DIM
      invariant row == Unit(i - 1)
      invariant forall k :: 0 <= k < i ==> odd[k] == Zeros(Unit(k), 1)
    {
      OneMoreColumn(row, i);
      odd[i] := row;
      row := Double(row);
    }
  }

  lemma FirstColumn()
    ensures Zeros(Unit(0), 1) == POLYNOMIAL
  {
    assert Zeros(Unit(0), 1) == ZeroBit(Zeros(1, 0));
  }

  lemma OneMoreColumn(row: bv32, i: nat)
    requires 1 <= i < 32 && row == Unit(i - 1) && Clear(1, 30)
    ensures Double(row) == Unit(i) && Zeros(Unit(i), 1) == row
  {
    hide Double, TopSet, Clear, ZeroBit;
    UpDouble(1, i - 1);
    UpClear(1, 30, i - 1);
    StepBack(row);
    assert Zeros(Unit(i), 1) == ZeroBit(Zeros(Unit(i), 0));
  }

  // ---- combining ----

  /** What is left to do: crc moved by len2 times n bits is the result. */
  lemma TakeBit(crc: bv32, n: nat, len2: nat)
    ensures Zeros(if len2 % 2 == 1 then Zeros(crc, n) else crc, 2 * n * (len2 / 2)) == Zeros(crc, n * len2)
  {
    hide Zeros;
    var h := len2 / 2;
    assert n * len2 == 2 * n * h + n * (len2 % 2) by { assert n * (2 * h + len2 % 2) == 2 * n * h + n * (len2 % 2); }
    if len2 % 2 == 1 { ZerosAdd(crc, n, 2 * n * h); }
  }

  /** Moves crc on by len2 zero bytes, doubling the reach of the operator for each bit of len2;
      two matrices take turns. */
  method MoveOn(crc0: bv32, len0: nat) returns (crc: bv32)
    requires len0 > 0
    ensures crc == Zeros(crc0, 8 * len0)
  {
    hide Zeros, Moves;
    var even, odd := new bv32[GF2_DIM], new bv32[GF2_DIM];
    OneZeroBit(odd);
    MatrixSquare(even, odd, 1);
    MatrixSquare(odd, even, 2);
    crc := crc0;
    var len2 := len0;
    ghost var n := 4;
    while true
      invariant Moves(odd[..], n) && n >= 4
      invariant Zeros(crc, 2 * n * len2) == Zeros(crc0, 8 * len0)
      invariant len2 > 0
      decreases len2
    {
      MatrixSquare(even, odd, n);
      TakeBit(crc, 2 * n, len2);
      if len2 % 2 == 1 { crc := MatrixTimes(even, crc, 2 * n); }
      len2 := len2 / 2;
      if len2 == 0 {
        NoZeros(crc);
        break;
      }
      MatrixSquare(odd, even, 2 * n);
      TakeBit(crc, 4 * n, len2);
      if len2 % 2 == 1 { crc := MatrixTimes(odd, crc, 4 * n); }
      len2 := len2 / 2;
      n := 4 * n;
      if len2 == 0 {
        NoZeros(crc);
        break;
      }
    }
  }

  /** The checksum of two pieces from the checksums of the pieces and the second's length. */
  method Crc32Combine(crc1: bv32, crc2: bv32, len2: int, ghost x: seq<byte>, ghost y: seq<byte>) returns (r: bv32)
    ensures len2 <= 0 ==> r == crc1
    ensures crc1 == Crc(x) && crc2 == Crc(y) && len2 == |y| > 0 ==> r == Crc(x + y)
  {
    hide Zeros, Crc;
    if len2 <= 0 { return crc1; }
    CombineLaw(x, y);
    r := MoveOn(crc1, len2);
    r := Xor(r, crc2);
  }
}
