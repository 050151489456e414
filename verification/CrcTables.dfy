/** The table-driven forms of the CRC.  Table k holds the register after a byte and k zero
    bytes; tables 4 to 7 hold the same with the bytes reversed, for registers kept reversed. */
module CrcTables {
  import opened Gf2
  import opened Crc32

  function LowByte(c: bv32): bv32 { c & 0xff }

  function Right8(c: bv32): bv32 { c >> 8 }

  function WithoutLow(c: bv32): bv32 { c & 0xffff_ff00 }

  function Left8(c: bv32): bv32 { c << 8 }

  function TopByte(c: bv32): bv32 { c >> 24 }

  // ---- one lookup ----

  lemma HalfClear(x: bv32)
    requires !Odd(x)
    ensures ZeroBit(x) == Half(x)
  {
  }

  lemma Evens(x: bv32)
    requires x & 0xff == 0
    ensures !Odd(x) && !Odd(x >> 1) && !Odd(x >> 2) && !Odd(x >> 3) && !Odd(x >> 4) && !Odd(x >> 5)
    ensures !Odd(x >> 6) && !Odd(x >> 7)
  {
  }

  lemma Halves(x: bv32)
    ensures Half(x) == x >> 1 && Half(x >> 1) == x >> 2 && Half(x >> 2) == x >> 3 && Half(x >> 3) == x >> 4
    ensures Half(x >> 4) == x >> 5 && Half(x >> 5) == x >> 6 && Half(x >> 6) == x >> 7 && Half(x >> 7) == Right8(x)
  {
  }

  lemma EightZeros(x: bv32)
    ensures Zeros(x, 8) == ZeroBit(ZeroBit(ZeroBit(ZeroBit(ZeroBit(ZeroBit(ZeroBit(ZeroBit(x))))))))
  {
    hide ZeroBit;
    assert Zeros(x, 0) == x;
    assert Zeros(x, 1) == ZeroBit(x);
    assert Zeros(x, 2) == ZeroBit(ZeroBit(x));
    assert Zeros(x, 3) == ZeroBit(Zeros(x, 2));
    assert Zeros(x, 4) == ZeroBit(Zeros(x, 3));
    assert Zeros(x, 5) == ZeroBit(Zeros(x, 4));
    assert Zeros(x, 6) == ZeroBit(Zeros(x, 5));
    assert Zeros(x, 7) == ZeroBit(Zeros(x, 6));
  }

  /** With eight clear bits at the bottom, eight steps only shift. */
  lemma OnlyShift(x: bv32)
    requires x & 0xff == 0
    ensures Zeros(x, 8) == Right8(x)
  {
    hide Odd, Half, ZeroBit, Right8;
    Evens(x);
    Halves(x);
    HalfClear(x);
    HalfClear(x >> 1);
    HalfClear(x >> 2);
    HalfClear(x >> 3);
    HalfClear(x >> 4);
    HalfClear(x >> 5);
    HalfClear(x >> 6);
    HalfClear(x >> 7);
    EightZeros(x);
  }

  lemma LowAndRest(c: bv32)
    ensures c == Xor(LowByte(c), WithoutLow(c))
    ensures WithoutLow(c) & 0xff == 0 && Right8(WithoutLow(c)) == Right8(c)
  {
  }

  /** Eight steps are one entry of table 0 and a shift. */
  lemma Lookup(c: bv32)
    ensures Zeros(c, 8) == Xor(Zeros(LowByte(c), 8), Right8(c))
  {
    hide Zeros, Xor, LowByte, WithoutLow, Right8;
    LowAndRest(c);
    OnlyShift(WithoutLow(c));
    ZerosLinear(LowByte(c), WithoutLow(c), 8);
  }

  lemma MixByte(c: bv32, b: bv32)
    requires b <= 0xff
    ensures Right8(Xor(c, b)) == Right8(c) && LowByte(b) == b
  {
  }

  // ---- four lookups ----

  /** The entries of tables 3 to 0 for the four bytes of a word. */
  function WordStep(c: bv32): bv32 {
    Xor(Xor(Xor(Zeros(LowByte(c), 32), Zeros(LowByte(Right8(c)), 24)), Zeros(LowByte(Right8(Right8(c))), 16)),
        Zeros(Right8(Right8(Right8(c))), 8))
  }

  lemma Peel(c: bv32, n: nat)
    requires n >= 8
    ensures Zeros(c, n) == Xor(Zeros(LowByte(c), n), Zeros(Right8(c), n - 8))
  {
    hide Zeros, Xor, LowByte, Right8;
    Lookup(c);
    ZerosAdd(c, 8, n - 8);
    ZerosAdd(LowByte(c), 8, n - 8);
    ZerosLinear(Zeros(LowByte(c), 8), Right8(c), n - 8);
    assert 8 + (n - 8) == n;
  }

  lemma LastByteLow(c: bv32)
    ensures LowByte(Right8(Right8(Right8(c)))) == Right8(Right8(Right8(c))) && Right8(Right8(Right8(Right8(c)))) == 0
  {
  }

  /** Four lookups do the work of thirty-two steps. */
  lemma WordIsSteps(c: bv32)
    ensures WordStep(c) == Zeros(c, 32)
  {
    hide Zeros, Xor, LowByte, Right8;
    var d, e, f := Right8(c), Right8(Right8(c)), Right8(Right8(Right8(c)));
    Peel(c, 32);
    Peel(d, 24);
    Peel(e, 16);
    var w, x, y, z := Zeros(LowByte(c), 32), Zeros(LowByte(d), 24), Zeros(LowByte(e), 16), Zeros(f, 8);
    XorAssociates(w, x, Xor(y, z));
    XorAssociates(Xor(w, x), y, z);
  }

  /** The four bytes as one little-endian word. */
  function WordOf(b0: bv32, b1: bv32, b2: bv32, b3: bv32): bv32 {
    b0 | (b1 << 8) | (b2 << 16) | (b3 << 24)
  }

  lemma WordBytes(b0: bv32, b1: bv32, b2: bv32, b3: bv32)
    requires b0 <= 0xff && b1 <= 0xff && b2 <= 0xff && b3 <= 0xff
    ensures var w := WordOf(b0, b1, b2, b3);
            && LowByte(w) == b0 && LowByte(Right8(w)) == b1 && LowByte(Right8(Right8(w))) == b2
            && LowByte(Right8(Right8(Right8(w)))) == b3
  {
  }

  /** Adding the word before eight steps is adding its first byte, and the rest afterwards. */
  lemma PeelWord(c: bv32, word: bv32)
    ensures Zeros(Xor(c, word), 8) == Xor(Zeros(Xor(c, LowByte(word)), 8), Right8(word))
  {
    hide Zeros, Xor, LowByte, WithoutLow, Right8;
    LowAndRest(word);
    XorAssociates(c, LowByte(word), WithoutLow(word));
    ZerosLinear(Xor(c, LowByte(word)), WithoutLow(word), 8);
    OnlyShift(WithoutLow(word));
  }

  function FourSteps(c: bv32, b0: bv32, b1: bv32, b2: bv32, b3: bv32): bv32 {
    Zeros(Xor(Zeros(Xor(Zeros(Xor(Zeros(Xor(c, b0), 8), b1), 8), b2), 8), b3), 8)
  }

  lemma WordIsFourBytes(c: bv32, b0: bv32, b1: bv32, b2: bv32, b3: bv32)
    requires b0 <= 0xff && b1 <= 0xff && b2 <= 0xff && b3 <= 0xff
    ensures Zeros(Xor(c, WordOf(b0, b1, b2, b3)), 32) == FourSteps(c, b0, b1, b2, b3)
  {
    hide Zeros, Xor, LowByte, Right8, WordOf;
    var w := WordOf(b0, b1, b2, b3);
    WordBytes(b0, b1, b2, b3);
    LastByteLow(w);
    var w1, w2, w3 := Right8(w), Right8(Right8(w)), Right8(Right8(Right8(w)));
    var c1 := Zeros(Xor(c, b0), 8);
    var c2 := Zeros(Xor(c1, b1), 8);
    var c3 := Zeros(Xor(c2, b2), 8);
    PeelWord(c, w);
    PeelWord(c1, w1);
    PeelWord(c2, w2);
    PeelWord(c3, w3);
    XorZero(Zeros(Xor(c3, b3), 8));
    ZerosAdd(Xor(c, w), 8, 8);
    ZerosAdd(Xor(c, w), 16, 8);
    ZerosAdd(Xor(c, w), 24, 8);
  }

  // ---- byte reversal ----

  /** ZSWAP32. */
  function Swap(q: bv32): bv32 {
    ((q >> 24) & 0xff) | ((q >> 8) & 0xff00) | ((q & 0xff00) << 8) | ((q & 0xff) << 24)
  }

  lemma SwapXor(a: bv32, b: bv32)
    ensures Swap(Xor(a, b)) == Xor(Swap(a), Swap(b))
  {
  }

  lemma SwapTwice(a: bv32)
    ensures Swap(Swap(a)) == a
  {
  }

  lemma SwapNot(a: bv32)
    ensures Swap(Not(a)) == Not(Swap(a))
  {
  }

  /** In a reversed register the byte to be consumed is on top, and shifting goes the other way. */
  lemma SwapParts(l: bv32)
    ensures TopByte(Swap(l)) == LowByte(l) && Left8(Swap(l)) == Swap(Right8(l))
    ensures LowByte(Swap(l)) == Right8(Right8(Right8(l)))
    ensures LowByte(Right8(Swap(l))) == LowByte(Right8(Right8(l)))
    ensures LowByte(Right8(Right8(Swap(l)))) == LowByte(Right8(l))
    ensures Right8(Right8(Right8(Swap(l)))) == LowByte(l)
  {
  }
}
