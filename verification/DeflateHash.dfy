/** The rolling hash of deflate: after three bytes the oldest has left it, and two strings with
    the same hash and the same first two bytes agree in the third. */
module DeflateHash {
  import opened Rotations
  import opened Gf2
  import opened ByteBits

  /** hash_shift and hash_mask. */
  datatype HashParams = HashParams(shift: nat, mask: bv32)

  function Masked(v: bv32, mask: bv32): bv32 { v & mask }

  /** The mask is a run of low bits, at least eight of them, and is used up by three shifts. */
  ghost predicate GoodHash(hp: HashParams) {
    && Masked(Half(hp.mask), hp.mask) == Half(hp.mask) && Masked(0xff, hp.mask) == 0xff
    && HalfTimes(hp.mask, 3 * hp.shift) == 0
  }

  /** A byte as the low part of a word. */
  function ByteWord(c: byte): bv32 { (c as bv8) as bv32 }

  /** UPDATE_HASH. */
  function UpdateHash(hp: HashParams, h: bv32, c: byte): bv32 {
    Masked(Xor(Up(h, hp.shift), ByteWord(c)), hp.mask)
  }

  function Hash3(hp: HashParams, a: byte, b: byte, c: byte): bv32 {
    UpdateHash(hp, UpdateHash(hp, UpdateHash(hp, 0, a), b), c)
  }

  // ---- the oldest byte leaves ----

  lemma MaskedXor(a: bv32, b: bv32, m: bv32)
    ensures Masked(Xor(a, b), m) == Xor(Masked(a, m), Masked(b, m))
  {
  }

  /** Bits that a low mask drops cannot come back by doubling. */
  lemma MaskedDouble(v: bv32, m: bv32)
    requires Masked(Half(m), m) == Half(m)
    ensures Masked(Double(Masked(v, m)), m) == Masked(Double(v), m)
  {
  }

  lemma MaskedTwice(v: bv32, m: bv32)
    ensures Masked(Masked(v, m), m) == Masked(v, m)
  {
  }

  lemma {:induction false} MaskedUp(v: bv32, m: bv32, i: nat)
    requires Masked(Half(m), m) == Half(m)
    ensures Masked(Up(Masked(v, m), i), m) == Masked(Up(v, i), m)
    decreases i
  {
    hide Masked, Double, Half;
    if i == 0 {
      MaskedTwice(v, m);
    } else {
      MaskedUp(Double(Masked(v, m)), m, i - 1);
      MaskedDouble(v, m);
      MaskedUp(Double(v), m, i - 1);
    }
  }

  lemma DoubleUnderMask(v: bv32, m: bv32)
    ensures Masked(Double(v), m) == Double(Masked(v, Half(m)))
  {
  }

  lemma MaskedDoubleZero(v: bv32, m: bv32)
    ensures Masked(v, 0) == 0 && Double(0) == 0
  {
  }

  /** What has been shifted past the mask is gone. */
  lemma {:induction false} ShiftedOut(v: bv32, m: bv32, i: nat)
    requires HalfTimes(m, i) == 0
    ensures Masked(Up(v, i), m) == 0
    decreases i
  {
    hide Masked, Double, Half;
    MaskedDoubleZero(v, m);
    if i > 0 {
      UpDouble(v, i - 1);
      DoubleUnderMask(Up(v, i - 1), m);
      ShiftedOut(v, Half(m), i - 1);
    }
  }

  lemma {:induction false} UpAdd(v: bv32, i: nat, j: nat)
    ensures Up(Up(v, i), j) == Up(v, i + j)
    decreases i
  {
    hide Double;
    if i > 0 {
      UpAdd(Double(v), i - 1, j);
      assert i + j - 1 == i - 1 + j;
    }
  }

  /** Two hashes that differ by d differ, one byte later, by d shifted and masked. */
  lemma HashDifference(hp: HashParams, h: bv32, d: bv32, c: byte)
    requires GoodHash(hp)
    ensures UpdateHash(hp, Xor(h, d), c) == Xor(UpdateHash(hp, h, c), Masked(Up(d, hp.shift), hp.mask))
  {
    hide Masked, Xor, Up, HalfTimes;
    var x := ByteWord(c);
    UpXor(h, d, hp.shift);
    XorMoveRight(Up(h, hp.shift), x, Up(d, hp.shift));
    MaskedXor(Xor(Up(h, hp.shift), x), Up(d, hp.shift), hp.mask);
  }

  /** Three bytes determine the hash, whatever it was before. */
  lemma HashForgets(hp: HashParams, h: bv32, a: byte, b: byte, c: byte)
    requires GoodHash(hp)
    ensures UpdateHash(hp, UpdateHash(hp, UpdateHash(hp, h, a), b), c) == Hash3(hp, a, b, c)
  {
    hide UpdateHash, Masked, Xor, Up, HalfTimes, Half;
    var s, m := hp.shift, hp.mask;
    XorZero(h);
    HashDifference(hp, 0, h, a);
    var d1 := Masked(Up(h, s), m);
    HashDifference(hp, UpdateHash(hp, 0, a), d1, b);
    var d2 := Masked(Up(d1, s), m);
    HashDifference(hp, UpdateHash(hp, UpdateHash(hp, 0, a), b), d2, c);
    var d3 := Masked(Up(d2, s), m);
    MaskedUp(Up(h, s), m, s);
    UpAdd(h, s, s);
    MaskedUp(Up(h, s + s), m, s);
    UpAdd(h, s + s, s);
    assert s + s + s == 3 * s;
    ShiftedOut(h, m, 3 * s);
    XorZero(Hash3(hp, a, b, c));
  }

  lemma FirstByte(hp: HashParams, a: byte)
    requires GoodHash(hp)
    ensures UpdateHash(hp, 0, a) == ByteWord(a)
  {
    hide HalfTimes, Half;
    UpZero(hp.shift);
    ByteWordInjective(a, a);
    UnderMask(ByteWord(a), hp.mask);
    hide Xor, Masked, ByteWord;
    XorZero(ByteWord(a));
  }

  lemma UnderMask(x: bv32, m: bv32)
    requires x <= 0xff && Masked(0xff, m) == 0xff
    ensures Masked(x, m) == x
  {
  }

  // ---- the third byte ----

  lemma SameLow(x: bv32, b: bv32, c: bv32, m: bv32)
    requires b <= 0xff && c <= 0xff && Masked(0xff, m) == 0xff
    requires Masked(Xor(x, b), m) == Masked(Xor(x, c), m)
    ensures b == c
  {
  }

  lemma ByteWordInjective(c: byte, d: byte)
    ensures ByteWord(c) <= 0xff && ByteWord(d) <= 0xff && (ByteWord(c) == ByteWord(d) ==> c == d)
  {
    ThroughBits(c);
    ThroughBits(d);
    Widened(c as bv8, d as bv8);
  }

  /** Equal hashes and equal first two bytes force an equal third byte. */
  lemma ThirdByte(hp: HashParams, a: byte, b: byte, c: byte, d: byte)
    requires GoodHash(hp) && Hash3(hp, a, b, c) == Hash3(hp, a, b, d)
    ensures c == d
  {
    hide Masked, Xor, Up, HalfTimes, Half;
    hide ByteWord;
    ByteWordInjective(c, d);
    SameLow(Up(UpdateHash(hp, UpdateHash(hp, 0, a), b), hp.shift), ByteWord(c), ByteWord(d), hp.mask);
  }

  lemma MaskedBelow(v: bv32, m: bv32)
    ensures Masked(v, m) <= m
  {
  }

  // ---- the sizes that can be asked for ----

  function TableSize(bits: nat): nat
    requires 8 <= bits <= 16
  {
    if bits == 8 then 0x100 else if bits == 9 then 0x200 else if bits == 10 then 0x400 else if bits == 11 then 0x800
    else if bits == 12 then 0x1000 else if bits == 13 then 0x2000 else if bits == 14 then 0x4000
    else if bits == 15 then 0x8000 else 0x1_0000
  }

  function MaskFor(bits: nat): bv32
    requires 8 <= bits <= 16
  {
    if bits == 8 then 0xff else if bits == 9 then 0x1ff else if bits == 10 then 0x3ff else if bits == 11 then 0x7ff
    else if bits == 12 then 0xfff else if bits == 13 then 0x1fff else if bits == 14 then 0x3fff
    else if bits == 15 then 0x7fff else 0xffff
  }

  function ParamsFor(bits: nat): HashParams
    requires 8 <= bits <= 16
  {
    HashParams((bits + 2) / 3, MaskFor(bits))
  }

  lemma MaskBasics(m: bv32)
    requires m == 0xff || m == 0x1ff || m == 0x3ff || m == 0x7ff || m == 0xfff || m == 0x1fff || m == 0x3fff
             || m == 0x7fff || m == 0xffff
    ensures Masked(Half(m), m) == Half(m) && Masked(0xff, m) == 0xff
  {
  }

  lemma MasksRunOut()
    ensures HalfTimes(0xff, 9) == 0 && HalfTimes(0x1ff, 9) == 0 && HalfTimes(0x3ff, 12) == 0
            && HalfTimes(0x7ff, 12) == 0
    ensures HalfTimes(0xfff, 12) == 0 && HalfTimes(0x1fff, 15) == 0 && HalfTimes(0x3fff, 15) == 0
    ensures HalfTimes(0x7fff, 15) == 0 && HalfTimes(0xffff, 18) == 0
  {
  }

  /** Every number of hash bits that deflateInit2 can ask for makes a good hash. */
  lemma AllSizesGood(bits: nat)
    requires 8 <= bits <= 16
    ensures GoodHash(ParamsFor(bits))
  {
    hide HalfTimes, Masked, Half;
    MaskBasics(MaskFor(bits));
    MasksRunOut();
  }

  lemma ConstantBounds(v: bv32)
    ensures v <= 0xff ==> v as int < 0x100
    ensures v <= 0x1ff ==> v as int < 0x200
    ensures v <= 0x3ff ==> v as int < 0x400
    ensures v <= 0x7ff ==> v as int < 0x800
    ensures v <= 0xfff ==> v as int < 0x1000
    ensures v <= 0x1fff ==> v as int < 0x2000
    ensures v <= 0x3fff ==> v as int < 0x4000
    ensures v <= 0x7fff ==> v as int < 0x8000
    ensures v <= 0xffff ==> v as int < 0x1_0000
  {
  }

  lemma BoundFor(bits: nat, v: bv32)
    requires 8 <= bits <= 16 && v <= MaskFor(bits)
    ensures v as int < TableSize(bits)
  {
    ConstantBounds(v);
  }

  /** A hash is an index into its table. */
  lemma HashInRange(bits: nat, h: bv32, c: byte)
    requires 8 <= bits <= 16
    ensures UpdateHash(ParamsFor(bits), h, c) as int < TableSize(bits)
  {
    hide Xor, Up, Masked, MaskFor, TableSize, ByteWord;
    var hp := ParamsFor(bits);
    MaskedBelow(Xor(Up(h, hp.shift), ByteWord(c)), hp.mask);
    BoundFor(bits, UpdateHash(hp, h, c));
  }
}
