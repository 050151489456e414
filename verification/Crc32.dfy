/** The CRC of RFC 1952 with the least significant bit first: by bits, by table, four bytes at
    a time in either byte order, and the combination of two checksums by matrices over GF(2). */
module Crc32 {
  import opened Rotations
  import opened Gf2
  import opened WordBits
  import opened Polynomials

  const POLYNOMIAL: bv32 := 0xedb8_8320

  /** Where the exponents' bits are: the highest coefficient is the lowest bit. */
  function Places(n: nat): (p: seq<nat>)
    requires n <= |TERMS|
    ensures |p| == n && forall k :: 0 <= k < n ==> p[k] == 31 - TERMS[k]
  {
    seq(n, k requires 0 <= k < n => 31 - TERMS[k])
  }

  lemma PatternNone()
    ensures WithBits(Places(0)) == 0
  {
    assert Places(0) == [];
  }

  lemma PatternGrows(k: nat)
    requires k < |TERMS|
    ensures TERMS[k] <= 31 && WithBits(Places(k + 1)) == Or(WithBits(Places(k)), Mask(31 - TERMS[k]))
  {
    TermSmall(k);
    hide *;
    var p: nat := 31 - TERMS[k];
    assert Places(k + 1) == Places(k) + [p];
    WithBitsNext(Places(k), p);
  }

  lemma TermSmall(k: nat)
    requires k < |TERMS|
    ensures TERMS[k] <= 26
  {
  }

  lemma PatternNext(k: nat, w: bv32, p: nat, w1: bv32)
    requires k < |TERMS| && p == 31 - TERMS[k] && WithBits(Places(k)) == w && Or(w, Mask(p)) == w1
    ensures WithBits(Places(k + 1)) == w1
  {
    hide Or, Mask, WithBits;
    PatternGrows(k);
  }

  lemma HighPattern()
    ensures WithBits(Places(7)) == 0xed80_0000
  {
    hide Mask, Places, WithBits;
    MaskValues();
    PatternNone();
    PatternNext(0, 0x0, 31, 0x80000000);
    PatternNext(1, 0x80000000, 30, 0xc0000000);
    PatternNext(2, 0xc0000000, 29, 0xe0000000);
    PatternNext(3, 0xe0000000, 27, 0xe8000000);
    PatternNext(4, 0xe8000000, 26, 0xec000000);
    PatternNext(5, 0xec000000, 24, 0xed000000);
    PatternNext(6, 0xed000000, 23, 0xed800000);
  }

  /** The pattern is made of the terms of the polynomial. */
  lemma PatternIs()
    ensures WithBits(Places(|TERMS|)) == POLYNOMIAL
  {
    hide Mask, Places, WithBits;
    MaskValues();
    HighPattern();
    PatternNext(7, 0xed800000, 21, 0xeda00000);
    PatternNext(8, 0xeda00000, 20, 0xedb00000);
    PatternNext(9, 0xedb00000, 19, 0xedb80000);
    PatternNext(10, 0xedb80000, 15, 0xedb88000);
    PatternNext(11, 0xedb88000, 9, 0xedb88200);
    PatternNext(12, 0xedb88200, 8, 0xedb88300);
    PatternNext(13, 0xedb88300, 5, 0xedb88320);
  }

  lemma PolynomialTerms(i: nat)
    requires i < 32
    ensures BitAt(POLYNOMIAL, i) <==> 31 - i in TERMS
  {
    hide BitAt;
    PatternIs();
    WithBitsAt(Places(|TERMS|), i);
  }

  // ---- one bit, many bits ----

  /** The register after one more zero bit of input. */
  function ZeroBit(c: bv32): bv32 {
    if Odd(c) then Xor(POLYNOMIAL, Half(c)) else Half(c)
  }

  function Zeros(c: bv32, n: nat): bv32 {
    if n == 0 then c else ZeroBit(Zeros(c, n - 1))
  }

  /** The register after a byte, one bit at a time (section 8 of RFC 1952). */
  function ByteStep(c: bv32, b: byte): bv32 {
    Zeros(Xor(c, b as bv32), 8)
  }

  function Register(c: bv32, s: seq<byte>): bv32 {
    if s == [] then c else ByteStep(Register(c, s[..|s| - 1]), s[|s| - 1])
  }

  function Not(c: bv32): bv32 { Xor(c, 0xffff_ffff) }

  /** The checksum carried on from crc over s. */
  function Update(crc: bv32, s: seq<byte>): bv32 { Not(Register(Not(crc), s)) }

  function Crc(s: seq<byte>): bv32 { Update(0, s) }

  // ---- linearity ----

  lemma ZeroBitLinear(a: bv32, b: bv32)
    ensures ZeroBit(Xor(a, b)) == Xor(ZeroBit(a), ZeroBit(b))
  {
    hide Odd, Half, Xor;
    OddXor(a, b);
    HalfXor(a, b);
    var x, y, p := Half(a), Half(b), POLYNOMIAL;
    XorExchange(p, x, p, y);
    XorCancels(p, p);
    XorZero(Xor(x, y));
    XorAssociates(p, x, y);
    XorCommutes(p, x);
    XorAssociates(x, p, y);
    XorCommutes(p, Xor(x, y));
    XorCommutes(x, Xor(p, y));
  }

  lemma {:induction false} ZerosLinear(a: bv32, b: bv32, n: nat)
    ensures Zeros(Xor(a, b), n) == Xor(Zeros(a, n), Zeros(b, n))
  {
    hide ZeroBit, Xor;
    if n > 0 {
      ZerosLinear(a, b, n - 1);
      ZeroBitLinear(Zeros(a, n - 1), Zeros(b, n - 1));
    }
  }

  lemma {:induction false} ZerosAdd(c: bv32, m: nat, n: nat)
    ensures Zeros(c, m + n) == Zeros(Zeros(c, m), n)
    decreases n
  {
    hide ZeroBit;
    if n > 0 {
      ZerosAdd(c, m, n - 1);
      assert m + n - 1 == m + (n - 1);
    }
  }

  lemma ZeroBitOfZero()
    ensures ZeroBit(0) == 0
  {
  }

  lemma {:induction false} ZerosOfZero(n: nat)
    ensures Zeros(0, n) == 0
  {
    hide ZeroBit;
    ZeroBitOfZero();
    if n > 0 { ZerosOfZero(n - 1); }
  }

  /** The starting value contributes its own share, moved on by the length of the input. */
  lemma {:induction false} RegisterSplit(c: bv32, s: seq<byte>)
    ensures Register(c, s) == Xor(Zeros(c, 8 * |s|), Register(0, s))
  {
    hide Zeros, Xor;
    if s == [] {
      XorZero(c);
      assert Zeros(c, 0) == c by { NoZeros(c); }
    } else {
      var t, b := s[..|s| - 1], s[|s| - 1] as bv32;
      RegisterSplit(c, t);
      var r := Register(0, t);
      XorAssociates(Zeros(c, 8 * |t|), r, b);
      ZerosLinear(Zeros(c, 8 * |t|), Xor(r, b), 8);
      ZerosAdd(c, 8 * |t|, 8);
      assert 8 * |t| + 8 == 8 * |s|;
    }
  }

  lemma NoZeros(c: bv32)
    ensures Zeros(c, 0) == c
  {
  }

  lemma {:induction false} RegisterConcat(c: bv32, s: seq<byte>, t: seq<byte>)
    ensures Register(c, s + t) == Register(Register(c, s), t)
  {
    hide ByteStep;
    if t == [] {
      assert s + t == s;
    } else {
      var u := t[..|t| - 1];
      RegisterConcat(c, s, u);
      assert (s + t)[..|s + t| - 1] == s + u;
    }
  }

  lemma NotTwice(c: bv32)
    ensures Not(Not(c)) == c
  {
    XorCancels(c, 0xffff_ffff);
  }

  /** Checksums may be taken piece by piece. */
  lemma UpdateConcat(crc: bv32, s: seq<byte>, t: seq<byte>)
    ensures Update(crc, s + t) == Update(Update(crc, s), t)
  {
    hide Register, Not;
    RegisterConcat(Not(crc), s, t);
    NotTwice(Register(Not(crc), s));
  }

  /** Moving the first checksum on past the second piece, and adding the second, gives the
      checksum of both pieces: what the starting values contribute cancels. */
  lemma CombineLaw(x: seq<byte>, y: seq<byte>)
    ensures Crc(x + y) == Xor(Zeros(Crc(x), 8 * |y|), Crc(y))
  {
    hide Register, Zeros, Xor;
    var f: bv32 := 0xffff_ffff;
    var n := 8 * |y|;
    XorZero(f);
    var p, q := Register(f, x), Register(0, y);
    RegisterConcat(f, x, y);
    RegisterSplit(p, y);
    RegisterSplit(f, y);
    ZerosLinear(p, f, n);
    var zp, zf := Zeros(p, n), Zeros(f, n);
    CancelMiddle(zp, zf, q, f);
  }

  lemma CancelMiddle(zp: bv32, zf: bv32, q: bv32, f: bv32)
    ensures Xor(Xor(zp, zf), Xor(Xor(zf, q), f)) == Xor(Xor(zp, q), f)
  {
    hide Xor;
    XorAssociates(zf, q, f);
    XorAssociates(zp, zf, Xor(zf, Xor(q, f)));
    XorCancels(zf, Xor(q, f));
    XorAssociates(zf, zf, Xor(q, f));
    XorAssociates(zp, q, f);
  }
}
