/** The checksum routines themselves: building the tables, and the loops that use them. */
module CrcRoutines {
  import opened Rotations
  import opened Gf2
  import opened WordBits
  import opened Polynomials
  import opened Crc32
  import opened CrcTables

  lemma ByteIndex(x: bv32)
    requires x <= 0xff
    ensures x as int < 256 && Seed(x as int) == x
  {
  }

  lemma LowSmall(x: bv32)
    ensures LowByte(x) <= 0xff && TopByte(x) <= 0xff
  {
  }

  lemma ByteBits(b: byte)
    ensures (b as bv32) <= 0xff
  {
  }

  /** A byte value as a register. */
  function Seed(n: nat): bv32
    requires n < 256
  {
    n as bv32
  }

  /** Entry n of tables k and k + 4: byte n and k zero bytes, and the same reversed. */
  ghost predicate EntryOk(t: array2<bv32>, k: nat, n: nat)
    requires t.Length0 == 8 && t.Length1 == 256 && k < 4 && n < 256
    reads t
  {
    t[k, n] == Zeros(Seed(n), 8 * (k + 1)) && t[k + 4, n] == Swap(Zeros(Seed(n), 8 * (k + 1)))
  }

  ghost predicate TablesOk(t: array2<bv32>)
    reads t
  {
    t.Length0 == 8 && t.Length1 == 256 && forall k, n :: 0 <= k < 4 && 0 <= n < 256 ==> EntryOk(t, k, n)
  }

  /** The first table is complete. */
  ghost predicate FirstOk(t: array2<bv32>)
    requires t.Length0 == 8 && t.Length1 == 256
    reads t
  {
    forall n :: 0 <= n < 256 ==> t[0, n] == Zeros(Seed(n), 8)
  }

  /** The pattern to be added, out of the terms of the polynomial. */
  method MakePattern() returns (poly: bv32)
    ensures poly == POLYNOMIAL
    ensures forall i :: 0 <= i < 32 ==> (BitAt(poly, i) <==> 31 - i in TERMS)
  {
    hide WithBits, Or, Mask, BitAt, Places;
    poly := 0;
    PatternNone();
    for n := 0 to |TERMS|
      invariant poly == WithBits(Places(n))
    {
      PatternGrows(n);
      poly := Or(poly, Mask(31 - TERMS[n]));
    }
    PatternIs();
    forall i | 0 <= i < 32 ensures BitAt(poly, i) <==> 31 - i in TERMS { PolynomialTerms(i); }
  }

  /** Fills the tables, the first bit by bit and the others from it. */
  method MakeCrcTable(t: array2<bv32>)
    requires t.Length0 == 8 && t.Length1 == 256
    modifies t
    ensures TablesOk(t)
  {
    hide Odd, Half, Xor, Swap, Seed;
    var poly := MakePattern();
    for n := 0 to 256
      invariant forall m :: 0 <= m < n ==> t[0, m] == Zeros(Seed(m), 8)
    {
      var c := Seed(n);
      for k := 0 to 8
        invariant c == Zeros(Seed(n), k)
        invariant forall m :: 0 <= m < n ==> t[0, m] == Zeros(Seed(m), 8)
      {
        c := if Odd(c) then Xor(poly, Half(c)) else Half(c);
      }
      t[0, n] := c;
    }
    assert FirstOk(t);
    hide Zeros, EntryOk, FirstOk;
    for n := 0 to 256
      invariant FirstOk(t) && forall k, m :: 0 <= k < 4 && 0 <= m < n ==> EntryOk(t, k, m)
    {
      FillRow(t, n);
    }
  }

  method FillRow(t: array2<bv32>, n: nat)
    requires t.Length0 == 8 && t.Length1 == 256 && n < 256 && FirstOk(t)
    modifies t
    ensures FirstOk(t) && forall k :: 0 <= k < 4 ==> EntryOk(t, k, n)
    ensures forall k, m :: 0 <= k < 4 && 0 <= m < 256 && m != n && old(EntryOk(t, k, m)) ==> EntryOk(t, k, m)
  {
    hide Zeros, Swap, Seed, EntryOk, FirstOk;
    var c := FirstEntry(t, n);
    StoreEntry(t, 0, n, c);
    for k := 1 to 4
      invariant FirstOk(t) && c == Zeros(Seed(n), 8 * k) && forall j :: 0 <= j < k ==> EntryOk(t, j, n)
      invariant forall j, m :: 0 <= j < 4 && 0 <= m < 256 && m != n && old(EntryOk(t, j, m)) ==> EntryOk(t, j, m)
    {
      c := NextEntry(t, c, Seed(n), 8 * k);
      StoreEntry(t, k, n, c);
    }
  }

  method FirstEntry(t: array2<bv32>, n: nat) returns (c: bv32)
    requires t.Length0 == 8 && t.Length1 == 256 && n < 256 && FirstOk(t)
    ensures c == Zeros(Seed(n), 8) && c == t[0, n]
  {
    c := t[0, n];
  }

  method StoreEntry(t: array2<bv32>, k: nat, n: nat, c: bv32)
    requires t.Length0 == 8 && t.Length1 == 256 && k < 4 && n < 256 && FirstOk(t) && c == Zeros(Seed(n), 8 * (k + 1))
    modifies t
    ensures FirstOk(t) && EntryOk(t, k, n)
    ensures forall j, m :: 0 <= j < 4 && 0 <= m < 256 && (j != k || m != n) && old(EntryOk(t, j, m)) ==>
              EntryOk(t, j, m)
  {
    hide Zeros, Swap, Seed;
    t[k, n] := c;
    t[k + 4, n] := Swap(c);
  }

  /** Eight more zero bits, by table 0. */
  method NextEntry(t: array2<bv32>, c: bv32, ghost x: bv32, ghost n: nat) returns (d: bv32)
    requires t.Length0 == 8 && t.Length1 == 256 && c == Zeros(x, n) && FirstOk(t)
    ensures d == Zeros(x, n + 8)
  {
    hide Zeros, Xor, LowByte, Right8, Seed;
    LowSmall(c);
    ByteIndex(LowByte(c));
    Lookup(c);
    ZerosAdd(x, n, 8);
    d := Xor(t[0, LowByte(c) as int], Right8(c));
  }

  // ---- one byte and four bytes ----

  method StepByte(t: array2<bv32>, c: bv32, b: byte) returns (d: bv32)
    requires TablesOk(t)
    ensures d == ByteStep(c, b)
  {
    hide Zeros, Xor, LowByte, Right8, Swap;
    var m := Xor(c, b as bv32);
    ByteBits(b);
    LowSmall(m);
    Lookup(m);
    MixByte(c, b as bv32);
    var e := At(t, 0, LowByte(m));
    d := Xor(e, Right8(c));
  }

  /** DOLIT4. */
  method StepWord(t: array2<bv32>, c: bv32, b: seq<byte>) returns (d: bv32)
    requires TablesOk(t) && |b| == 4
    ensures d == ByteStep(ByteStep(ByteStep(ByteStep(c, b[0]), b[1]), b[2]), b[3])
  {
    hide Zeros, Xor, LowByte, Right8, Swap, WordOf;
    ByteBits(b[0]);
    ByteBits(b[1]);
    ByteBits(b[2]);
    ByteBits(b[3]);
    var word := WordOf(b[0] as bv32, b[1] as bv32, b[2] as bv32, b[3] as bv32);
    WordIsFourBytes(c, b[0] as bv32, b[1] as bv32, b[2] as bv32, b[3] as bv32);
    var m := Xor(c, word);
    WordIsSteps(m);
    d := Lookups(t, m);
  }

  /** The entry of table k for byte x. */
  method At(t: array2<bv32>, k: nat, x: bv32) returns (e: bv32)
    requires TablesOk(t) && k < 8 && x <= 0xff
    ensures k < 4 ==> e == Zeros(x, 8 * (k + 1))
    ensures k >= 4 ==> e == Swap(Zeros(x, 8 * (k - 3)))
  {
    hide Zeros, Swap, Seed;
    ByteIndex(x);
    assert EntryOk(t, if k < 4 then k else k - 4, x as int);
    e := t[k, x as int];
  }

  method Lookups(t: array2<bv32>, m: bv32) returns (d: bv32)
    requires TablesOk(t)
    ensures d == WordStep(m)
  {
    hide Zeros, Xor, LowByte, Right8, Swap, TablesOk;
    LowSmall(m);
    LowSmall(Right8(m));
    LowSmall(Right8(Right8(m)));
    LowSmall(Right8(Right8(Right8(m))));
    LastByteLow(m);
    var e3 := At(t, 3, LowByte(m));
    var e2 := At(t, 2, LowByte(Right8(m)));
    var e1 := At(t, 1, LowByte(Right8(Right8(m))));
    var e0 := At(t, 0, Right8(Right8(Right8(m))));
    d := Xor(Xor(Xor(e3, e2), e1), e0);
  }

  // ---- the reversed register ----

  method StepByteBig(t: array2<bv32>, c: bv32, b: byte, ghost l: bv32) returns (d: bv32)
    requires TablesOk(t) && c == Swap(l)
    ensures d == Swap(ByteStep(l, b))
  {
    hide Zeros, Xor, LowByte, Right8, Swap, TopByte, Left8;
    var bb := b as bv32;
    ByteBits(b);
    SwapParts(l);
    MixByte(l, bb);
    LowXor(l, bb);
    Lookup(Xor(l, bb));
    LowSmall(Xor(l, bb));
    var i := Xor(TopByte(c), bb);
    SwapXor(Zeros(i, 8), Right8(l));
    var e := At(t, 4, i);
    d := Xor(e, Left8(c));
  }

  lemma LowXor(l: bv32, b: bv32)
    requires b <= 0xff
    ensures Xor(LowByte(l), b) == LowByte(Xor(l, b))
  {
  }

  /** DOBIG4: the word is read with its bytes the other way round. */
  method StepWordBig(t: array2<bv32>, c: bv32, b: seq<byte>, ghost l: bv32) returns (d: bv32)
    requires TablesOk(t) && |b| == 4 && c == Swap(l)
    ensures d == Swap(ByteStep(ByteStep(ByteStep(ByteStep(l, b[0]), b[1]), b[2]), b[3]))
  {
    hide Zeros, Xor, LowByte, Right8, Swap, WordOf;
    ByteBits(b[0]);
    ByteBits(b[1]);
    ByteBits(b[2]);
    ByteBits(b[3]);
    ghost var little := WordOf(b[0] as bv32, b[1] as bv32, b[2] as bv32, b[3] as bv32);
    var word := WordOf(b[3] as bv32, b[2] as bv32, b[1] as bv32, b[0] as bv32);
    WordReversed(b[0] as bv32, b[1] as bv32, b[2] as bv32, b[3] as bv32);
    WordIsFourBytes(l, b[0] as bv32, b[1] as bv32, b[2] as bv32, b[3] as bv32);
    SwapXor(l, little);
    WordIsSteps(Xor(l, little));
    d := LookupsBig(t, Xor(c, word), Xor(l, little));
  }

  lemma WordReversed(b0: bv32, b1: bv32, b2: bv32, b3: bv32)
    requires b0 <= 0xff && b1 <= 0xff && b2 <= 0xff && b3 <= 0xff
    ensures WordOf(b3, b2, b1, b0) == Swap(WordOf(b0, b1, b2, b3))
  {
  }

  method LookupsBig(t: array2<bv32>, m: bv32, ghost l: bv32) returns (d: bv32)
    requires TablesOk(t) && m == Swap(l)
    ensures d == Swap(WordStep(l))
  {
    hide Zeros, Xor, LowByte, Right8, Swap, TablesOk;
    ghost var l1, l2, l3 := Right8(l), Right8(Right8(l)), Right8(Right8(Right8(l)));
    SwapParts(l);
    LowSmall(m);
    LowSmall(Right8(m));
    LowSmall(Right8(Right8(m)));
    LowSmall(Right8(Right8(Right8(m))));
    LastByteLow(m);
    var e4 := At(t, 4, LowByte(m));
    var e5 := At(t, 5, LowByte(Right8(m)));
    var e6 := At(t, 6, LowByte(Right8(Right8(m))));
    var e7 := At(t, 7, Right8(Right8(Right8(m))));
    d := Xor(Xor(Xor(e4, e5), e6), e7);
    ReversedSum(Zeros(l3, 8), Zeros(LowByte(l2), 16), Zeros(LowByte(l1), 24), Zeros(LowByte(l), 32));
  }

  lemma ReversedSum(a: bv32, b: bv32, c: bv32, d: bv32)
    ensures Xor(Xor(Xor(Swap(a), Swap(b)), Swap(c)), Swap(d)) == Swap(Xor(Xor(Xor(d, c), b), a))
  {
    hide Xor, Swap;
    SwapXor(a, b);
    SwapXor(Xor(a, b), c);
    SwapXor(Xor(Xor(a, b), c), d);
    XorCommutes(Xor(Xor(a, b), c), d);
    XorCommutes(Xor(a, b), c);
    XorAssociates(d, c, Xor(a, b));
    XorCommutes(a, b);
    XorAssociates(Xor(d, c), b, a);
  }

  // ---- whole buffers ----

  lemma RegisterNext(c: bv32, s: seq<byte>, i: nat)
    requires i < |s|
    ensures Register(c, s[..i + 1]) == ByteStep(Register(c, s[..i]), s[i])
  {
    assert s[..i + 1][..i] == s[..i];
  }

  lemma RegisterNextFour(c: bv32, s: seq<byte>, i: nat)
    requires i + 4 <= |s|
    ensures Register(c, s[..i + 4]) ==
              ByteStep(ByteStep(ByteStep(ByteStep(Register(c, s[..i]), s[i]), s[i + 1]), s[i + 2]), s[i + 3])
  {
    hide ByteStep;
    RegisterNext(c, s, i);
    RegisterNext(c, s, i + 1);
    RegisterNext(c, s, i + 2);
    RegisterNext(c, s, i + 3);
  }

  lemma RegisterEnds(c: bv32, s: seq<byte>)
    ensures Register(c, s[..0]) == c && s[..|s|] == s
  {
  }

  /** A byte at a time. */
  method Crc32Bytes(t: array2<bv32>, crc: bv32, buf: seq<byte>) returns (r: bv32)
    requires TablesOk(t)
    ensures r == Update(crc, buf)
  {
    hide Register, ByteStep, Not, TablesOk;
    var c := Not(crc);
    RegisterEnds(c, buf);
    for i := 0 to |buf|
      invariant c == Register(Not(crc), buf[..i])
    {
      RegisterNext(Not(crc), buf, i);
      c := StepByte(t, c, buf[i]);
    }
    r := Not(c);
  }

  /** Bytes up to a word boundary, then words, then the bytes left over; address is where the
      buffer begins. */
  method Crc32Little(t: array2<bv32>, crc: bv32, buf: seq<byte>, address: nat) returns (r: bv32)
    requires TablesOk(t)
    ensures r == Update(crc, buf)
  {
    hide Register, ByteStep, Not, TablesOk;
    var c := Not(crc);
    var i := 0;
    RegisterEnds(c, buf);
    while i < |buf| && (address + i) % 4 != 0
      invariant 0 <= i <= |buf| && c == Register(Not(crc), buf[..i])
    {
      RegisterNext(Not(crc), buf, i);
      c := StepByte(t, c, buf[i]);
      i := i + 1;
    }
    while |buf| - i >= 4
      invariant 0 <= i <= |buf| && c == Register(Not(crc), buf[..i])
    {
      RegisterNextFour(Not(crc), buf, i);
      c := StepWord(t, c, buf[i..i + 4]);
      i := i + 4;
    }
    while i < |buf|
      invariant 0 <= i <= |buf| && c == Register(Not(crc), buf[..i])
    {
      RegisterNext(Not(crc), buf, i);
      c := StepByte(t, c, buf[i]);
      i := i + 1;
    }
    r := Not(c);
  }

  /** The same with the register kept reversed. */
  method Crc32Big(t: array2<bv32>, crc: bv32, buf: seq<byte>, address: nat) returns (r: bv32)
    requires TablesOk(t)
    ensures r == Update(crc, buf)
  {
    hide Register, ByteStep, Not, TablesOk, Swap;
    var c := Swap(crc);
    c := Not(c);
    SwapNot(crc);
    var i := 0;
    RegisterEnds(Not(crc), buf);
    while i < |buf| && (address + i) % 4 != 0
      invariant 0 <= i <= |buf| && c == Swap(Register(Not(crc), buf[..i]))
    {
      RegisterNext(Not(crc), buf, i);
      c := StepByteBig(t, c, buf[i], Register(Not(crc), buf[..i]));
      i := i + 1;
    }
    while |buf| - i >= 4
      invariant 0 <= i <= |buf| && c == Swap(Register(Not(crc), buf[..i]))
    {
      RegisterNextFour(Not(crc), buf, i);
      c := StepWordBig(t, c, buf[i..i + 4], Register(Not(crc), buf[..i]));
      i := i + 4;
    }
    while i < |buf|
      invariant 0 <= i <= |buf| && c == Swap(Register(Not(crc), buf[..i]))
    {
      RegisterNext(Not(crc), buf, i);
      c := StepByteBig(t, c, buf[i], Register(Not(crc), buf[..i]));
      i := i + 1;
    }
    c := Not(c);
    SwapNot(Register(Not(crc), buf));
    SwapTwice(Not(Register(Not(crc), buf)));
    r := Swap(c);
  }
}
