/** The single bits of 32-bit words, the lowest with number 0. */
module WordBits {
  import opened Gf2

  function And(x: bv32, y: bv32): bv32 { x & y }

  function Or(x: bv32, y: bv32): bv32 { x | y }

  function AndNot(x: bv32, y: bv32): bv32 { x & !y }

  /** 1 << k. */
  function Mask(k: nat): bv32 {
    if k == 0 then 1 else Double(Mask(k - 1))
  }

  predicate BitAt(w: bv32, k: nat) {
    And(w, Mask(k)) != 0
  }

  // ---- facts about words, each proved on its own ----

  lemma DoubleZero(x: bv32)
    requires Double(x) != 0
    ensures x != 0
  {
  }

  lemma DoubleAnd(x: bv32, y: bv32)
    requires And(x, y) == 0
    ensures And(Double(x), Double(y)) == 0
  {
  }

  lemma OneAnd(y: bv32)
    ensures And(1, Double(y)) == 0
  {
  }

  lemma OrAnd(w: bv32, m: bv32, p: bv32)
    requires And(m, p) == 0
    ensures And(Or(w, m), p) == And(w, p)
  {
  }

  lemma AndNotAnd(w: bv32, m: bv32, p: bv32)
    requires And(m, p) == 0
    ensures And(AndNot(w, m), p) == And(w, p)
  {
  }

  lemma SelfAnd(w: bv32, m: bv32)
    ensures And(Or(w, m), m) == m && And(AndNot(w, m), m) == 0
  {
  }

  lemma FullAnd(m: bv32)
    ensures And(0xffff_ffff, m) == m && And(0, m) == 0
  {
  }

  lemma AndCommutes(x: bv32, y: bv32)
    ensures And(x, y) == And(y, x)
  {
  }

  lemma MaskNext(k: nat)
    ensures Mask(k + 1) == Double(Mask(k)) && Mask(0) == 1
  {
    hide Double;
  }

  lemma MaskTop()
    ensures Mask(31) == 0x8000_0000
  {
    MaskValues();
  }

  lemma MaskValues()
    ensures Mask(0) == 0x1 && Mask(1) == 0x2 && Mask(2) == 0x4 && Mask(3) == 0x8
    ensures Mask(4) == 0x10 && Mask(5) == 0x20 && Mask(6) == 0x40 && Mask(7) == 0x80
    ensures Mask(8) == 0x100 && Mask(9) == 0x200 && Mask(10) == 0x400 && Mask(11) == 0x800
    ensures Mask(12) == 0x1000 && Mask(13) == 0x2000 && Mask(14) == 0x4000 && Mask(15) == 0x8000
    ensures Mask(16) == 0x10000 && Mask(17) == 0x20000 && Mask(18) == 0x40000 && Mask(19) == 0x80000
    ensures Mask(20) == 0x100000 && Mask(21) == 0x200000 && Mask(22) == 0x400000 && Mask(23) == 0x800000
    ensures Mask(24) == 0x1000000 && Mask(25) == 0x2000000 && Mask(26) == 0x4000000 && Mask(27) == 0x8000000
    ensures Mask(28) == 0x10000000 && Mask(29) == 0x20000000 && Mask(30) == 0x40000000 && Mask(31) == 0x80000000
  {
    hide Double;
    DoubledOne();
    MaskNext(0);
    MaskNext(1);
    MaskNext(2);
    MaskNext(3);
    MaskNext(4);
    MaskNext(5);
    MaskNext(6);
    MaskNext(7);
    MaskNext(8);
    MaskNext(9);
    MaskNext(10);
    MaskNext(11);
    MaskNext(12);
    MaskNext(13);
    MaskNext(14);
    MaskNext(15);
    MaskNext(16);
    MaskNext(17);
    MaskNext(18);
    MaskNext(19);
    MaskNext(20);
    MaskNext(21);
    MaskNext(22);
    MaskNext(23);
    MaskNext(24);
    MaskNext(25);
    MaskNext(26);
    MaskNext(27);
    MaskNext(28);
    MaskNext(29);
    MaskNext(30);
  }

  lemma DoubledOne()
    ensures Double(0x1) == 0x2 && Double(0x2) == 0x4 && Double(0x4) == 0x8 && Double(0x8) == 0x10
    ensures Double(0x10) == 0x20 && Double(0x20) == 0x40 && Double(0x40) == 0x80 && Double(0x80) == 0x100
    ensures Double(0x100) == 0x200 && Double(0x200) == 0x400 && Double(0x400) == 0x800 && Double(0x800) == 0x1000
    ensures Double(0x1000) == 0x2000 && Double(0x2000) == 0x4000 && Double(0x4000) == 0x8000
            && Double(0x8000) == 0x10000
    ensures Double(0x10000) == 0x20000 && Double(0x20000) == 0x40000 && Double(0x40000) == 0x80000
            && Double(0x80000) == 0x100000
    ensures Double(0x100000) == 0x200000 && Double(0x200000) == 0x400000 && Double(0x400000) == 0x800000
            && Double(0x800000) == 0x1000000
    ensures Double(0x1000000) == 0x2000000 && Double(0x2000000) == 0x4000000 && Double(0x4000000) == 0x8000000
            && Double(0x8000000) == 0x10000000
    ensures Double(0x10000000) == 0x20000000 && Double(0x20000000) == 0x40000000 && Double(0x40000000) == 0x80000000
  {
  }

  // ---- bits ----

  lemma {:induction false} MaskNonZero(k: nat)
    requires k <= 31
    ensures Mask(k) != 0
    decreases 31 - k
  {
    hide *;
    if k < 31 {
      MaskNonZero(k + 1);
      MaskNext(k);
      DoubleZero(Mask(k));
    } else {
      MaskTop();
    }
  }

  lemma {:induction false} MasksDisjoint(a: nat, b: nat)
    requires a < b
    ensures And(Mask(a), Mask(b)) == 0
  {
    hide *;
    MaskNext(b - 1);
    if a > 0 {
      MasksDisjoint(a - 1, b - 1);
      MaskNext(a - 1);
      DoubleAnd(Mask(a - 1), Mask(b - 1));
    } else {
      OneAnd(Mask(b - 1));
    }
  }

  lemma OtherMask(a: nat, b: nat)
    requires a != b
    ensures And(Mask(a), Mask(b)) == 0
  {
    hide *;
    if a < b { MasksDisjoint(a, b); } else { MasksDisjoint(b, a); AndCommutes(Mask(a), Mask(b)); }
  }

  /** Setting or clearing bit a of a word changes bit a and no other. */
  lemma SetBit(w: bv32, a: nat, b: nat)
    requires a < 32 && b < 32
    ensures BitAt(Or(w, Mask(a)), b) == (a == b || BitAt(w, b))
    ensures BitAt(AndNot(w, Mask(a)), b) == (a != b && BitAt(w, b))
  {
    hide And, Or, AndNot, Mask;
    if a == b {
      MaskNonZero(a);
      SelfAnd(w, Mask(a));
    } else {
      OtherMask(a, b);
      OrAnd(w, Mask(a), Mask(b));
      AndNotAnd(w, Mask(a), Mask(b));
    }
  }

  lemma FullWord(k: nat)
    requires k < 32
    ensures BitAt(0xffff_ffff, k) && !BitAt(0, k)
  {
    hide And, Mask;
    MaskNonZero(k);
    FullAnd(Mask(k));
  }

  // ---- bits and the operations of GF(2) ----

  ghost predicate Single(m: bv32) { m & (m - 1) == 0 }

  lemma SingleDouble(m: bv32)
    requires Single(m)
    ensures Single(Double(m))
  {
  }

  lemma {:induction false} MaskSingle(k: nat)
    ensures Single(Mask(k))
  {
    if k > 0 {
      MaskSingle(k - 1);
      hide Single, Double;
      SingleDouble(Mask(k - 1));
    }
  }

  lemma AndXor(a: bv32, b: bv32, m: bv32)
    ensures And(Xor(a, b), m) == Xor(And(a, m), And(b, m))
  {
  }

  lemma NoneOrAll(a: bv32, m: bv32)
    requires Single(m)
    ensures And(a, m) == 0 || And(a, m) == m
  {
  }

  lemma XorMask(a: bv32, b: bv32, m: bv32)
    requires Single(m)
    ensures (And(Xor(a, b), m) != 0) == ((And(a, m) != 0) != (And(b, m) != 0))
  {
    hide And, Xor, Single;
    AndXor(a, b, m);
    NoneOrAll(a, m);
    NoneOrAll(b, m);
    XorZero(m);
    XorZero(0);
    XorCancels(m, m);
  }

  lemma XorBit(a: bv32, b: bv32, i: nat)
    ensures BitAt(Xor(a, b), i) == (BitAt(a, i) != BitAt(b, i))
  {
    hide And, Mask, Xor, Single;
    MaskSingle(i);
    XorMask(a, b, Mask(i));
  }

  lemma HalfMask(c: bv32, m: bv32)
    requires !TopSet(m)
    ensures (And(Half(c), m) != 0) == (And(c, Double(m)) != 0)
  {
  }

  lemma TopMask(m: bv32)
    requires And(m, 0x8000_0000) == 0
    ensures !TopSet(m)
  {
  }

  lemma MaskBelowTop(i: nat)
    requires i < 31
    ensures !TopSet(Mask(i))
  {
    hide *;
    MaskTop();
    MasksDisjoint(i, 31);
    TopMask(Mask(i));
  }

  lemma HalfTop(c: bv32)
    ensures And(Half(c), 0x8000_0000) == 0
  {
  }

  lemma TopAnd(c: bv32)
    ensures (And(c, 0x8000_0000) != 0) == TopSet(c)
  {
  }

  lemma OddAnd(c: bv32)
    ensures (And(c, 1) != 0) == Odd(c)
  {
  }

  /** Shifting down: every bit becomes the one below it. */
  lemma HalfBit(c: bv32, i: nat)
    requires i < 32
    ensures BitAt(Half(c), i) == (i < 31 && BitAt(c, i + 1))
  {
    hide And, Half, Mask, Double;
    HalfTop(c);
    if i < 31 {
      MaskBelowTop(i);
      MaskNext(i);
      HalfMask(c, Mask(i));
    } else {
      MaskTop();
    }
  }

  lemma DoubleMask(c: bv32, m: bv32)
    requires !TopSet(m)
    ensures (And(Double(c), Double(m)) != 0) == (And(c, m) != 0) && And(Double(c), 1) == 0
  {
  }

  /** Shifting up: every bit becomes the one above it. */
  lemma DoubleBit(c: bv32, i: nat)
    requires i < 32
    ensures BitAt(Double(c), i) == (i > 0 && BitAt(c, i - 1))
  {
    hide And, Mask, Double;
    MaskNext(0);
    if i > 0 {
      MaskBelowTop(i - 1);
      MaskNext(i - 1);
      DoubleMask(c, Mask(i - 1));
    } else {
      MaskBelowTop(0);
      DoubleMask(c, Mask(0));
    }
  }

  lemma EndBits(c: bv32)
    ensures BitAt(c, 0) == Odd(c) && BitAt(c, 31) == TopSet(c)
  {
    hide And, Mask, Odd, TopSet;
    MaskNext(0);
    MaskTop();
    TopAnd(c);
    OddAnd(c);
  }

  lemma ClearBelow(x: bv32, m: bv32)
    requires Single(m) && And(x, m - 1) == 0 && And(x, m) == 0
    ensures And(x, Double(m) - 1) == 0
  {
  }

  lemma {:induction false} AllClear(x: bv32, k: nat)
    requires k <= 31 && forall i :: 0 <= i <= k ==> !BitAt(x, i)
    ensures And(x, Double(Mask(k)) - 1) == 0
  {
    hide And, Double, Single;
    assert !BitAt(x, k);
    MaskSingle(k);
    if k == 0 {
      NoneBelow(x);
    } else {
      AllClear(x, k - 1);
    }
    ClearBelow(x, Mask(k));
  }

  lemma NoneBelow(x: bv32)
    ensures And(x, 1 - 1) == 0
  {
  }

  lemma ClearWhole(x: bv32)
    requires And(x, Double(0x8000_0000) - 1) == 0
    ensures x == 0
  {
  }

  lemma XorIsZero(a: bv32, b: bv32)
    requires Xor(a, b) == 0
    ensures a == b
  {
  }

  /** A word is its thirty-two bits. */
  lemma SameBits(a: bv32, b: bv32)
    requires forall i :: 0 <= i < 32 ==> BitAt(a, i) == BitAt(b, i)
    ensures a == b
  {
    hide And, Xor, Mask, BitAt, Double;
    forall i | 0 <= i <= 31 ensures !BitAt(Xor(a, b), i) { XorBit(a, b, i); }
    AllClear(Xor(a, b), 31);
    MaskTop();
    ClearWhole(Xor(a, b));
    XorIsZero(a, b);
  }

  // ---- a word made of named bits ----

  /** The word whose set bits are those listed. */
  function WithBits(places: seq<nat>): bv32 {
    if places == [] then 0 else Or(WithBits(places[..|places| - 1]), Mask(places[|places| - 1]))
  }

  lemma WithBitsNext(places: seq<nat>, p: nat)
    ensures WithBits(places + [p]) == Or(WithBits(places), Mask(p))
  {
    assert (places + [p])[..|places|] == places;
  }

  lemma {:induction false} WithBitsAt(places: seq<nat>, i: nat)
    requires i < 32 && forall k :: 0 <= k < |places| ==> places[k] < 32
    ensures BitAt(WithBits(places), i) <==> i in places
  {
    hide Or, Mask, BitAt;
    if places == [] {
      FullWord(i);
    } else {
      var rest, p := places[..|places| - 1], places[|places| - 1];
      WithBitsAt(rest, i);
      SetBit(WithBits(rest), p, i);
      assert places == rest + [p];
    }
  }
}
