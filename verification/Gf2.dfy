/** 32-bit words as vectors over GF(2).  Proofs about checksums use addition only through the
    laws stated here. */
module Gf2 {

  function Xor(a: bv32, b: bv32): bv32 { a ^ b }

  lemma XorCommutes(a: bv32, b: bv32)
    ensures Xor(a, b) == Xor(b, a)
  {
  }

  lemma XorAssociates(a: bv32, b: bv32, c: bv32)
    ensures Xor(Xor(a, b), c) == Xor(a, Xor(b, c))
  {
  }

  lemma XorZero(a: bv32)
    ensures Xor(a, 0) == a && Xor(0, a) == a
  {
  }

  lemma XorCancels(a: bv32, b: bv32)
    ensures Xor(Xor(a, b), b) == a && Xor(a, Xor(a, b)) == b && Xor(a, a) == 0
  {
  }

  /** Four summands in the other pairing. */
  lemma XorExchange(a: bv32, b: bv32, c: bv32, d: bv32)
    ensures Xor(Xor(a, b), Xor(c, d)) == Xor(Xor(a, c), Xor(b, d))
  {
    hide Xor;
    XorAssociates(a, b, Xor(c, d));
    XorAssociates(b, c, d);
    XorCommutes(b, c);
    XorAssociates(c, b, d);
    XorAssociates(a, c, Xor(b, d));
  }

  lemma XorMoveRight(a: bv32, b: bv32, c: bv32)
    ensures Xor(Xor(a, c), b) == Xor(Xor(a, b), c) && Xor(a, Xor(b, c)) == Xor(Xor(a, b), c)
  {
    hide Xor;
    XorAssociates(a, b, c);
    XorAssociates(a, c, b);
    XorCommutes(b, c);
  }

  // ---- shifting by one place, and by many ----

  function Odd(c: bv32): bool { c & 1 != 0 }

  function TopSet(c: bv32): bool { c & 0x8000_0000 != 0 }

  function Half(c: bv32): bv32 { c >> 1 }

  function Double(c: bv32): bv32 { c << 1 }

  /** v moved up by i places. */
  function Up(v: bv32, i: nat): bv32
    decreases i
  {
    if i == 0 then v else Up(Double(v), i - 1)
  }

  /** v moved down by k places. */
  function HalfTimes(v: bv32, k: nat): bv32
    decreases k
  {
    if k == 0 then v else HalfTimes(Half(v), k - 1)
  }

  lemma OddXor(a: bv32, b: bv32)
    ensures Odd(Xor(a, b)) == (Odd(a) != Odd(b))
  {
  }

  lemma TopXor(a: bv32, b: bv32)
    ensures TopSet(Xor(a, b)) == (TopSet(a) != TopSet(b))
  {
  }

  lemma HalfXor(a: bv32, b: bv32)
    ensures Half(Xor(a, b)) == Xor(Half(a), Half(b))
  {
  }

  lemma DoubleXor(a: bv32, b: bv32)
    ensures Double(Xor(a, b)) == Xor(Double(a), Double(b))
  {
  }

  lemma {:induction false} UpXor(a: bv32, b: bv32, i: nat)
    ensures Up(Xor(a, b), i) == Xor(Up(a, i), Up(b, i))
    decreases i
  {
    hide Double, Xor;
    if i > 0 {
      DoubleXor(a, b);
      UpXor(Double(a), Double(b), i - 1);
    }
  }

  lemma {:induction false} UpDouble(v: bv32, i: nat)
    ensures Up(v, i + 1) == Double(Up(v, i))
    decreases i
  {
    hide Double;
    if i > 0 { UpDouble(Double(v), i - 1); }
  }

  lemma DoubleZero()
    ensures Double(0) == 0
  {
  }

  lemma {:induction false} UpZero(i: nat)
    ensures Up(0, i) == 0
  {
    hide Double;
    DoubleZero();
    if i > 0 { UpZero(i - 1); }
  }
}
