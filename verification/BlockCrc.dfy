/** The block checksum: a 32-bit CRC, most significant bit first, a table entry per byte. */
module BlockCrc {
  import opened Rotations
  import opened Gf2
  import opened WordBits
  import opened Polynomials

  const POLYNOMIAL: bv32 := 0x04c1_1db7

  /** The exponents' bits are where they are numbered. */
  function Places(n: nat): (p: seq<nat>)
    requires n <= |TERMS|
    ensures |p| == n && forall k :: 0 <= k < n ==> p[k] == TERMS[k]
  {
    seq(n, k requires 0 <= k < n => TERMS[k])
  }

  lemma PatternNone()
    ensures WithBits(Places(0)) == 0
  {
    assert Places(0) == [];
  }

  lemma PatternNext(k: nat, w: bv32, p: nat, w1: bv32)
    requires k < |TERMS| && p == TERMS[k] && WithBits(Places(k)) == w && Or(w, Mask(p)) == w1
    ensures WithBits(Places(k + 1)) == w1
  {
    hide Or, Mask;
    assert Places(k + 1) == Places(k) + [p];
    WithBitsNext(Places(k), p);
  }

  lemma LowPattern()
    ensures WithBits(Places(7)) == 0x1b7
  {
    hide Mask, Places, WithBits;
    MaskValues();
    PatternNone();
    PatternNext(0, 0x0, 0, 0x1);
    PatternNext(1, 0x1, 1, 0x3);
    PatternNext(2, 0x3, 2, 0x7);
    PatternNext(3, 0x7, 4, 0x17);
    PatternNext(4, 0x17, 5, 0x37);
    PatternNext(5, 0x37, 7, 0xb7);
    PatternNext(6, 0xb7, 8, 0x1b7);
  }

  /** The pattern has a bit for every term of the polynomial. */
  lemma PatternIs()
    ensures WithBits(Places(|TERMS|)) == POLYNOMIAL
  {
    hide Mask, Places, WithBits;
    MaskValues();
    LowPattern();
    PatternNext(7, 0x1b7, 10, 0x5b7);
    PatternNext(8, 0x5b7, 11, 0xdb7);
    PatternNext(9, 0xdb7, 12, 0x1db7);
    PatternNext(10, 0x1db7, 16, 0x11db7);
    PatternNext(11, 0x11db7, 22, 0x411db7);
    PatternNext(12, 0x411db7, 23, 0xc11db7);
    PatternNext(13, 0xc11db7, 26, 0x4c11db7);
  }

  lemma PolynomialTerms(i: nat)
    requires i < 32
    ensures BitAt(POLYNOMIAL, i) <==> i in TERMS
  {
    hide BitAt;
    PatternIs();
    WithBitsAt(Places(|TERMS|), i);
  }

  /** One bit of the division. */
  function ShiftBit(c: bv32): bv32 {
    if TopSet(c) then Xor(Double(c), POLYNOMIAL) else Double(c)
  }

  function ShiftBits(c: bv32, n: nat): bv32 {
    if n == 0 then c else ShiftBit(ShiftBits(c, n - 1))
  }

  function LeftByte(c: bv32): bv32 { c << 8 }

  function AtTop(c: bv32): bv32 { c << 24 }

  function TopByte(c: bv32): bv32 { c >> 24 }

  /** Entry of the table for byte i. */
  function Entry(i: bv32): bv32 { ShiftBits(AtTop(i), 8) }

  function Update(crc: bv32, ch: byte): bv32 {
    Xor(LeftByte(crc), Entry(Xor(TopByte(crc), ch as bv32)))
  }

  /** The register after the bytes of s. */
  function Crc(s: seq<byte>): bv32 {
    if s == [] then 0xffff_ffff else Update(Crc(s[..|s| - 1]), s[|s| - 1])
  }

  function Finalised(crc: bv32): bv32 { Xor(crc, 0xffff_ffff) }

  // ---- table lookup is division ----

  lemma ShiftBitLinear(a: bv32, b: bv32)
    ensures ShiftBit(Xor(a, b)) == Xor(ShiftBit(a), ShiftBit(b))
  {
    hide TopSet, Double, Xor;
    DoubleXor(a, b);
    TopXor(a, b);
    var x, y, p := Double(a), Double(b), POLYNOMIAL;
    XorExchange(x, p, y, p);
    XorCancels(p, p);
    XorZero(Xor(x, y));
    XorMoveRight(x, y, p);
  }

  lemma {:induction false} ShiftLinear(a: bv32, b: bv32, n: nat)
    ensures ShiftBits(Xor(a, b), n) == Xor(ShiftBits(a, n), ShiftBits(b, n))
  {
    hide ShiftBit, Xor;
    if n > 0 {
      ShiftLinear(a, b, n - 1);
      ShiftBitLinear(ShiftBits(a, n - 1), ShiftBits(b, n - 1));
    }
  }

  lemma ShiftClear(x: bv32)
    requires !TopSet(x)
    ensures ShiftBit(x) == Double(x)
  {
  }

  /** Nothing is divided while the top bits are clear. */
  lemma ShiftLow(x: bv32)
    requires x & 0xff00_0000 == 0
    ensures ShiftBits(x, 8) == LeftByte(x)
  {
    hide TopSet, Double, ShiftBit, LeftByte;
    Clears(x);
    Doubles(x);
    ShiftClear(x);
    ShiftClear(x << 1);
    ShiftClear(x << 2);
    ShiftClear(x << 3);
    ShiftClear(x << 4);
    ShiftClear(x << 5);
    ShiftClear(x << 6);
    ShiftClear(x << 7);
    EightBits(x);
  }

  lemma EightBits(x: bv32)
    ensures ShiftBits(x, 8) == ShiftBit(ShiftBit(ShiftBit(ShiftBit(ShiftBit(ShiftBit(ShiftBit(ShiftBit(x))))))))
  {
    hide ShiftBit;
    assert ShiftBits(x, 0) == x;
    assert ShiftBits(x, 1) == ShiftBit(x);
    assert ShiftBits(x, 2) == ShiftBit(ShiftBit(x));
    assert ShiftBits(x, 3) == ShiftBit(ShiftBits(x, 2));
    assert ShiftBits(x, 4) == ShiftBit(ShiftBits(x, 3));
    assert ShiftBits(x, 5) == ShiftBit(ShiftBits(x, 4));
    assert ShiftBits(x, 6) == ShiftBit(ShiftBits(x, 5));
    assert ShiftBits(x, 7) == ShiftBit(ShiftBits(x, 6));
  }

  lemma Clears(x: bv32)
    requires x & 0xff00_0000 == 0
    ensures !TopSet(x) && !TopSet(x << 1) && !TopSet(x << 2) && !TopSet(x << 3) && !TopSet(x << 4) && !TopSet(x << 5)
    ensures !TopSet(x << 6) && !TopSet(x << 7)
  {
  }

  lemma Doubles(x: bv32)
    ensures Double(x) == x << 1 && Double(x << 1) == x << 2 && Double(x << 2) == x << 3 && Double(x << 3) == x << 4
    ensures Double(x << 4) == x << 5 && Double(x << 5) == x << 6 && Double(x << 6) == x << 7
            && Double(x << 7) == LeftByte(x)
  {
  }

  /** One table lookup does the work of dividing the next eight bits one at a time. */
  lemma LookupIsDivision(crc: bv32, ch: byte)
    ensures Update(crc, ch) == ShiftBits(Xor(crc, AtTop(ch as bv32)), 8)
  {
    hide ShiftBits, Xor, AtTop, TopByte, LeftByte;
    var low, c := WithoutTop(crc), ch as bv32;
    LowClear(crc);
    ShiftLow(low);
    SplitTop(crc, c);
    ShiftLinear(low, AtTop(Xor(TopByte(crc), c)), 8);
  }

  function WithoutTop(c: bv32): bv32 { c & 0x00ff_ffff }

  lemma LowClear(crc: bv32)
    ensures WithoutTop(crc) & 0xff00_0000 == 0 && LeftByte(WithoutTop(crc)) == LeftByte(crc)
  {
  }

  lemma SplitTop(crc: bv32, c: bv32)
    ensures Xor(crc, AtTop(c)) == Xor(WithoutTop(crc), AtTop(Xor(TopByte(crc), c)))
  {
    hide Xor, AtTop, WithoutTop, TopByte;
    TwoParts(crc);
    AtTopXor(TopByte(crc), c);
    XorAssociates(WithoutTop(crc), AtTop(TopByte(crc)), AtTop(c));
  }

  lemma TwoParts(crc: bv32)
    ensures crc == Xor(WithoutTop(crc), AtTop(TopByte(crc)))
  {
  }

  lemma AtTopXor(a: bv32, b: bv32)
    ensures AtTop(Xor(a, b)) == Xor(AtTop(a), AtTop(b))
  {
  }
}
