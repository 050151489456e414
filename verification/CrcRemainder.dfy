/** The two checksums as what they are for: remainders on division by one and the same polynomial.
    zlib keeps the highest coefficient in the lowest bit of its register, bzip2 in the highest. */
module CrcRemainder {
  import opened Rotations
  import opened Gf2
  import opened WordBits
  import opened Polynomials
  import Crc32
  import CrcTables
  import BlockCrc

  // ---- registers as polynomials ----

  function LowFirst(c: bv32): (u: seq<bool>)
    ensures |u| == 32 && forall i :: 0 <= i < 32 ==> u[i] == BitAt(c, i)
  {
    seq(32, i requires 0 <= i < 32 => BitAt(c, i))
  }

  function TopFirst(c: bv32): (u: seq<bool>)
    ensures |u| == 32 && forall i :: 0 <= i < 32 ==> u[i] == BitAt(c, 31 - i)
  {
    seq(32, i requires 0 <= i < 32 => BitAt(c, 31 - i))
  }

  function Flipped(u: seq<bool>): (v: seq<bool>)
    ensures |v| == |u| && forall i :: 0 <= i < |v| ==> v[i] == !u[i]
  {
    seq(|u|, i requires 0 <= i < |u| => !u[i])
  }

  lemma XorFirst(a: bv32, b: bv32)
    ensures LowFirst(Xor(a, b)) == Sum(LowFirst(a), LowFirst(b))
    ensures TopFirst(Xor(a, b)) == Sum(TopFirst(a), TopFirst(b))
  {
    hide *;
    forall i | 0 <= i < 32 ensures BitAt(Xor(a, b), i) == (BitAt(a, i) != BitAt(b, i)) { XorBit(a, b, i); }
    assert LowFirst(Xor(a, b)) == Sum(LowFirst(a), LowFirst(b));
    var t := Sum(TopFirst(a), TopFirst(b));
    forall i | 0 <= i < 32 ensures TopFirst(Xor(a, b))[i] == t[i] { XorBit(a, b, 31 - i); }
  }

  /** The words of ones turn every bit. */
  lemma NotFirst(c: bv32)
    ensures LowFirst(Xor(c, 0xffff_ffff)) == Flipped(LowFirst(c))
    ensures TopFirst(Xor(c, 0xffff_ffff)) == Flipped(TopFirst(c))
  {
    hide *;
    XorFirst(c, 0xffff_ffff);
    forall i | 0 <= i < 32 ensures BitAt(0xffff_ffff, i) { FullWord(i); }
    var l, t := Flipped(LowFirst(c)), Flipped(TopFirst(c));
    assert Sum(LowFirst(c), LowFirst(0xffff_ffff)) == l;
    assert Sum(TopFirst(c), TopFirst(0xffff_ffff)) == t;
  }

  // ---- zlib ----

  /** The pattern has a bit 31 - e for every exponent e. */
  lemma LowDivisor()
    ensures LowFirst(Crc32.POLYNOMIAL) == Divisor()
  {
    hide BitAt;
    forall i | 0 <= i < 32 ensures BitAt(Crc32.POLYNOMIAL, i) == (31 - i in TERMS) {
      Crc32.PolynomialTerms(i);
    }
  }

  lemma HalfFirst(c: bv32)
    ensures LowFirst(Half(c)) == LowFirst(c)[1..] + [false]
  {
    hide *;
    forall i | 0 <= i < 32 ensures BitAt(Half(c), i) == (i < 31 && BitAt(c, i + 1)) { HalfBit(c, i); }
    var u, v := LowFirst(Half(c)), LowFirst(c)[1..] + [false];
    forall i | 0 <= i < 32 ensures u[i] == v[i] {}
  }

  lemma ZeroBitFirst(c: bv32)
    ensures LowFirst(Crc32.ZeroBit(c)) == Remainder(LowFirst(c) + [false])
  {
    hide Odd, Half, Xor, LowFirst, BitAt;
    OneStep(LowFirst(c));
    HalfFirst(c);
    EndBits(c);
    XorCommutes(Crc32.POLYNOMIAL, Half(c));
    XorFirst(Half(c), Crc32.POLYNOMIAL);
    LowDivisor();
  }

  lemma OneStep(u: seq<bool>)
    requires |u| == 32
    ensures Remainder(u + [false]) == if u[0] then Sum(u[1..] + [false], Divisor()) else u[1..] + [false]
  {
    hide Divisor;
    var w := u + [false];
    assert w[1..] == u[1..] + [false] && w[1..33] == w[1..] && w[33..] == [];
  }

  lemma RemainderNone(u: seq<bool>)
    requires |u| == 32
    ensures Remainder(u + Nought(0)) == u
  {
    assert u + Nought(0) == u;
  }

  lemma NoughtLast(u: seq<bool>, n: nat)
    requires n > 0
    ensures u + Nought(n - 1) + [false] == u + Nought(n)
  {
  }

  lemma {:induction false} ZerosFirst(c: bv32, n: nat)
    ensures LowFirst(Crc32.Zeros(c, n)) == Remainder(LowFirst(c) + Nought(n))
  {
    hide LowFirst, Remainder, Crc32.ZeroBit;
    var u := LowFirst(c);
    if n == 0 {
      RemainderNone(u);
    } else {
      ZerosFirst(c, n - 1);
      ZeroBitFirst(Crc32.Zeros(c, n - 1));
      RemainderLater(u + Nought(n - 1), [false]);
      NoughtLast(u, n);
    }
  }

  // ---- bytes ----

  function ByteLow(b: byte): (u: seq<bool>)
    ensures |u| == 8 && forall i :: 0 <= i < 8 ==> u[i] == BitAt(b as bv32, i)
  {
    seq(8, i requires 0 <= i < 8 => BitAt(b as bv32, i))
  }

  function ByteTop(b: byte): (u: seq<bool>)
    ensures |u| == 8 && forall i :: 0 <= i < 8 ==> u[i] == BitAt(b as bv32, 7 - i)
  {
    seq(8, i requires 0 <= i < 8 => BitAt(b as bv32, 7 - i))
  }

  lemma ByteBits(b: byte)
    ensures And(b as bv32, 0xff) == b as bv32
  {
  }

  lemma OutOfByte(m: bv32)
    requires And(0xff, m) == 0
    ensures And(0xff, Double(m)) == 0
  {
  }

  lemma {:induction false} HighMask(i: nat)
    requires i >= 8
    ensures And(0xff, Mask(i)) == 0
  {
    if i == 8 {
      assert Mask(8) == 0x100;
    } else {
      HighMask(i - 1);
      hide And, Double, Mask;
      OutOfByte(Mask(i - 1));
      MaskNext(i - 1);
    }
  }

  lemma AndAnd(x: bv32, f: bv32, m: bv32)
    requires And(x, f) == x && And(f, m) == 0
    ensures And(x, m) == 0
  {
  }

  lemma HighBit(b: byte, i: nat)
    requires i >= 8
    ensures !BitAt(b as bv32, i)
  {
    hide And, Mask;
    ByteBits(b);
    HighMask(i);
    AndAnd(b as bv32, 0xff, Mask(i));
  }

  lemma ByteLowFirst(b: byte)
    ensures LowFirst(b as bv32) == ByteLow(b) + Nought(24)
  {
    hide BitAt, LowFirst, ByteLow;
    var u, v := LowFirst(b as bv32), ByteLow(b) + Nought(24);
    forall i | 0 <= i < 32 ensures u[i] == v[i] { if i >= 8 { HighBit(b, i); } }
  }

  /** The message as a polynomial: byte after byte, each with its lowest bit first. */
  function LowMessage(s: seq<byte>): (u: seq<bool>)
    ensures |u| == 8 * |s|
  {
    if s == [] then [] else LowMessage(s[..|s| - 1]) + ByteLow(s[|s| - 1])
  }

  /** The register is the remainder of what it began with and the message. */
  lemma {:induction false} RegisterIsRemainder(c: bv32, s: seq<byte>)
    ensures LowFirst(Crc32.Register(c, s)) == Remainder(Dividend(LowFirst(c), LowMessage(s)))
  {
    hide LowFirst, ByteLow, Remainder, Dividend, Sum, Xor, Crc32.Zeros, Nought;
    if s == [] {
      DividendNone(LowFirst(c));
    } else {
      var t, b := s[..|s| - 1], s[|s| - 1];
      RegisterIsRemainder(c, t);
      DividendNext(LowFirst(c), LowMessage(t), ByteLow(b));
      var r := Crc32.Register(c, t);
      ByteLowFirst(b);
      XorFirst(r, b as bv32);
      ZerosFirst(Xor(r, b as bv32), 8);
    }
  }

  /** A checksum carried on from crc: register and result are complemented. */
  lemma UpdateIsRemainder(crc: bv32, s: seq<byte>)
    ensures LowFirst(Crc32.Update(crc, s)) == Flipped(Remainder(Dividend(Flipped(LowFirst(crc)), LowMessage(s))))
  {
    hide LowFirst, Remainder, Dividend, LowMessage, Flipped, Crc32.Register, Xor;
    RegisterIsRemainder(Crc32.Not(crc), s);
    NotFirst(crc);
    NotFirst(Crc32.Register(Crc32.Not(crc), s));
  }

  // ---- bzip2 ----

  lemma TopDivisor()
    ensures TopFirst(BlockCrc.POLYNOMIAL) == Divisor()
  {
    hide BitAt;
    forall i | 0 <= i < 32 ensures BitAt(BlockCrc.POLYNOMIAL, i) == (i in TERMS) { BlockCrc.PolynomialTerms(i); }
  }

  lemma DoubleFirst(c: bv32)
    ensures TopFirst(Double(c)) == TopFirst(c)[1..] + [false]
  {
    hide *;
    forall i | 0 <= i < 32 ensures BitAt(Double(c), i) == (i > 0 && BitAt(c, i - 1)) { DoubleBit(c, i); }
    var u, v := TopFirst(Double(c)), TopFirst(c)[1..] + [false];
    forall i | 0 <= i < 32 ensures u[i] == v[i] {}
  }

  lemma ShiftBitFirst(c: bv32)
    ensures TopFirst(BlockCrc.ShiftBit(c)) == Remainder(TopFirst(c) + [false])
  {
    hide TopSet, Double, Xor, TopFirst, BitAt;
    OneStep(TopFirst(c));
    DoubleFirst(c);
    EndBits(c);
    XorFirst(Double(c), BlockCrc.POLYNOMIAL);
    TopDivisor();
  }

  lemma {:induction false} ShiftBitsFirst(c: bv32, n: nat)
    ensures TopFirst(BlockCrc.ShiftBits(c, n)) == Remainder(TopFirst(c) + Nought(n))
  {
    hide TopFirst, Remainder, BlockCrc.ShiftBit;
    var u := TopFirst(c);
    if n == 0 {
      RemainderNone(u);
    } else {
      ShiftBitsFirst(c, n - 1);
      ShiftBitFirst(BlockCrc.ShiftBits(c, n - 1));
      RemainderLater(u + Nought(n - 1), [false]);
      NoughtLast(u, n);
    }
  }

  lemma {:induction false} UpBit(x: bv32, k: nat, i: nat)
    requires i < 32
    ensures BitAt(Up(x, k), i) == (i >= k && BitAt(x, i - k))
  {
    hide BitAt, Double;
    if k > 0 {
      UpDouble(x, k - 1);
      DoubleBit(Up(x, k - 1), i);
      if i > 0 { UpBit(x, k - 1, i - 1); }
    }
  }

  lemma EightUp(x: bv32)
    ensures Up(x, 8) == x << 8
  {
    Doublings(x);
    hide Double;
    assert Up(x << 8, 0) == x << 8;
    assert Up(x << 7, 1) == x << 8;
    assert Up(x << 6, 2) == x << 8;
    assert Up(x << 5, 3) == x << 8;
    assert Up(x << 4, 4) == x << 8;
    assert Up(x << 3, 5) == x << 8;
    assert Up(x << 2, 6) == x << 8;
    assert Up(x << 1, 7) == x << 8;
  }

  lemma Doublings(x: bv32)
    ensures Double(x) == x << 1 && Double(x << 1) == x << 2 && Double(x << 2) == x << 3 && Double(x << 3) == x << 4
    ensures Double(x << 4) == x << 5 && Double(x << 5) == x << 6 && Double(x << 6) == x << 7 && Double(x << 7) == x << 8
  {
  }

  lemma {:induction false} UpAdd(x: bv32, k: nat, n: nat)
    ensures Up(Up(x, k), n) == Up(x, k + n)
    decreases n
  {
    hide Double;
    if n > 0 {
      UpDouble(Up(x, k), n - 1);
      UpAdd(x, k, n - 1);
      UpDouble(x, k + n - 1);
    }
  }

  lemma ThreeShifts(x: bv32)
    ensures ((x << 8) << 8) << 8 == BlockCrc.AtTop(x)
  {
  }

  lemma AtTopUp(x: bv32)
    ensures Up(x, 24) == BlockCrc.AtTop(x)
  {
    hide Up, BlockCrc.AtTop;
    EightUp(x);
    EightUp(x << 8);
    EightUp((x << 8) << 8);
    UpAdd(x, 8, 8);
    UpAdd(x, 16, 8);
    ThreeShifts(x);
  }

  lemma ByteTopFirst(b: byte)
    ensures TopFirst(BlockCrc.AtTop(b as bv32)) == ByteTop(b) + Nought(24)
  {
    hide *;
    AtTopUp(b as bv32);
    var u, v := TopFirst(BlockCrc.AtTop(b as bv32)), ByteTop(b) + Nought(24);
    forall i | 0 <= i < 32 ensures u[i] == v[i] { UpBit(b as bv32, 24, 31 - i); }
  }

  function TopMessage(s: seq<byte>): (u: seq<bool>)
    ensures |u| == 8 * |s|
  {
    if s == [] then [] else TopMessage(s[..|s| - 1]) + ByteTop(s[|s| - 1])
  }

  /** The block checksum is the remainder of 32 ones and the bytes, each with its highest bit first. */
  lemma {:induction false} BlockCrcIsRemainder(s: seq<byte>)
    ensures TopFirst(BlockCrc.Crc(s)) == Remainder(Dividend(Flipped(Nought(32)), TopMessage(s)))
  {
    hide TopFirst, ByteTop, Remainder, Dividend, Sum, Xor, BlockCrc.ShiftBits, BlockCrc.Update, BlockCrc.AtTop;
    if s == [] {
      StartFirst();
      DividendNone(Flipped(Nought(32)));
    } else {
      var t, b := s[..|s| - 1], s[|s| - 1];
      BlockCrcIsRemainder(t);
      DividendNext(Flipped(Nought(32)), TopMessage(t), ByteTop(b));
      var r := BlockCrc.Crc(t);
      ByteTopFirst(b);
      XorFirst(r, BlockCrc.AtTop(b as bv32));
      ShiftBitsFirst(Xor(r, BlockCrc.AtTop(b as bv32)), 8);
      BlockCrc.LookupIsDivision(r, b);
    }
  }

  lemma StartFirst()
    ensures TopFirst(0xffff_ffff) == Flipped(Nought(32))
  {
    hide BitAt;
    forall i | 0 <= i < 32 ensures BitAt(0xffff_ffff, i) { FullWord(i); }
  }

  // ---- a sample ----

  /** The bytes of the text 123456789. */
  const DIGITS: seq<byte> := [0x31, 0x32, 0x33, 0x34, 0x35, 0x36, 0x37, 0x38, 0x39]

  lemma DigitNext(k: nat, c: bv32, d: bv32)
    requires k < 9 && Crc32.Register(0xffff_ffff, DIGITS[..k]) == c && Crc32.ByteStep(c, DIGITS[k]) == d
    ensures Crc32.Register(0xffff_ffff, DIGITS[..k + 1]) == d
  {
    hide Crc32.ByteStep;
    assert DIGITS[..k + 1][..k] == DIGITS[..k];
  }

  /** One bit of the division, spelt out. */
  function OneBit(c: bv32): bv32 {
    if c & 1 != 0 then 0xedb8_8320 ^ (c >> 1) else c >> 1
  }

  lemma OneBitIs(c: bv32)
    ensures Crc32.ZeroBit(c) == OneBit(c)
  {
  }

  lemma DigitStep(c: bv32, b: byte, d: bv32)
    requires OneBit(OneBit(OneBit(OneBit(OneBit(OneBit(OneBit(OneBit(c ^ (b as bv32))))))))) == d
    ensures Crc32.ByteStep(c, b) == d
  {
    var c0 := Xor(c, b as bv32);
    hide OneBit, Crc32.ZeroBit, Crc32.Zeros;
    CrcTables.EightZeros(c0);
    OneBitIs(c0);
    var c1 := OneBit(c0);
    OneBitIs(c1);
    var c2 := OneBit(c1);
    OneBitIs(c2);
    var c3 := OneBit(c2);
    OneBitIs(c3);
    var c4 := OneBit(c3);
    OneBitIs(c4);
    var c5 := OneBit(c4);
    OneBitIs(c5);
    var c6 := OneBit(c5);
    OneBitIs(c6);
    var c7 := OneBit(c6);
    OneBitIs(c7);
  }

  lemma DigitOne()
    ensures Crc32.ByteStep(0xffff_ffff, 0x31) == 0x7c23_1048
  {
    hide Crc32.ByteStep;
    DigitStep(0xffff_ffff, 0x31, 0x7c23_1048);
  }

  lemma DigitTwo()
    ensures Crc32.ByteStep(0x7c23_1048, 0x32) == 0xb0ac_bb32
  {
    hide Crc32.ByteStep;
    DigitStep(0x7c23_1048, 0x32, 0xb0ac_bb32);
  }

  lemma DigitThree()
    ensures Crc32.ByteStep(0xb0ac_bb32, 0x33) == 0x77b7_9c2d
  {
    hide Crc32.ByteStep;
    DigitStep(0xb0ac_bb32, 0x33, 0x77b7_9c2d);
  }

  lemma DigitFour()
    ensures Crc32.ByteStep(0x77b7_9c2d, 0x34) == 0x641c_1f5c
  {
    hide Crc32.ByteStep;
    DigitStep(0x77b7_9c2d, 0x34, 0x641c_1f5c);
  }

  lemma DigitFive()
    ensures Crc32.ByteStep(0x641c_1f5c, 0x35) == 0x340a_c5e3
  {
    hide Crc32.ByteStep;
    DigitStep(0x641c_1f5c, 0x35, 0x340a_c5e3);
  }

  lemma DigitSix()
    ensures Crc32.ByteStep(0x340a_c5e3, 0x36) == 0xf68d_2c9e
  {
    hide Crc32.ByteStep;
    DigitStep(0x340a_c5e3, 0x36, 0xf68d_2c9e);
  }

  lemma DigitSeven()
    ensures Crc32.ByteStep(0xf68d_2c9e, 0x37) == 0xaffc_9660
  {
    hide Crc32.ByteStep;
    DigitStep(0xf68d_2c9e, 0x37, 0xaffc_9660);
  }

  lemma DigitEight()
    ensures Crc32.ByteStep(0xaffc_9660, 0x38) == 0x651f_2550
  {
    hide Crc32.ByteStep;
    DigitStep(0xaffc_9660, 0x38, 0x651f_2550);
  }

  lemma DigitNine()
    ensures Crc32.ByteStep(0x651f_2550, 0x39) == 0x340b_c6d9
  {
    hide Crc32.ByteStep;
    DigitStep(0x651f_2550, 0x39, 0x340b_c6d9);
  }

  /** The checksum of 123456789, which descriptions of this checksum give to check by. */
  lemma CheckValue()
    ensures Crc32.Crc(DIGITS) == 0xcbf4_3926
  {
    hide Crc32.ByteStep, Crc32.Register;
    DigitOne();
    DigitTwo();
    DigitThree();
    DigitFour();
    DigitFive();
    DigitSix();
    DigitSeven();
    DigitEight();
    DigitNine();
    assert DIGITS[..9] == DIGITS;
    NoDigits();
    DigitNext(0, 0xffff_ffff, 0x7c23_1048);
    DigitNext(1, 0x7c23_1048, 0xb0ac_bb32);
    DigitNext(2, 0xb0ac_bb32, 0x77b7_9c2d);
    DigitNext(3, 0x77b7_9c2d, 0x641c_1f5c);
    DigitNext(4, 0x641c_1f5c, 0x340a_c5e3);
    DigitNext(5, 0x340a_c5e3, 0xf68d_2c9e);
    DigitNext(6, 0xf68d_2c9e, 0xaffc_9660);
    DigitNext(7, 0xaffc_9660, 0x651f_2550);
    DigitNext(8, 0x651f_2550, 0x340b_c6d9);
  }

  lemma NoDigits()
    ensures Crc32.Register(0xffff_ffff, DIGITS[..0]) == 0xffff_ffff
  {
  }
}
