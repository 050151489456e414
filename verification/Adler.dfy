/** The Adler-32 checksum: two sums modulo 65521, reduced once per 5552 bytes. */
module Adler {
  import opened Rotations
  import opened Bits
  import opened Products

  const BASE: nat := 65521
  const NMAX: nat := 5552
  const WORD: nat := 0x1_0000_0000

  // ---- the sums without reduction ----

  function SumA(a: nat, s: seq<byte>): nat {
    if s == [] then a else SumA(a, s[..|s| - 1]) + s[|s| - 1]
  }

  function SumB(a: nat, b: nat, s: seq<byte>): nat {
    if s == [] then b else SumB(a, b, s[..|s| - 1]) + SumA(a, s)
  }

  /** Remainder modulo the prime. */
  function Reduced(x: nat): (r: nat)
    ensures r < BASE
  {
    x % BASE
  }

  /** The checksum of section 2.2 of RFC 1950: sums that start from 1 and 0. */
  function AdlerOf(s: seq<byte>): nat {
    Packed(SumA(1, s), SumB(1, 0, s))
  }

  function Packed(a: nat, b: nat): (r: nat)
    ensures r % 0x1_0000 == Reduced(a) && r / 0x1_0000 == Reduced(b) && r == Reduced(a) + 0x1_0000 * Reduced(b)
  {
    Reduced(a) + 0x1_0000 * Reduced(b)
  }

  lemma SumNext(a: nat, b: nat, s: seq<byte>, x: byte)
    ensures SumA(a, s + [x]) == SumA(a, s) + x && SumB(a, b, s + [x]) == SumB(a, b, s) + SumA(a, s) + x
  {
    assert (s + [x])[..|s|] == s;
  }

  /** What the starting values contribute. */
  lemma {:induction false} SumShift(a: nat, b: nat, s: seq<byte>)
    ensures SumA(a, s) == a + SumA(0, s) && SumB(a, b, s) == b + |s| * a + SumB(0, 0, s)
  {
    if s != [] {
      var t := s[..|s| - 1];
      SumShift(a, b, t);
      assert |s| * a == |t| * a + a;
    }
  }

  lemma {:induction false} SumConcat(a: nat, b: nat, s: seq<byte>, t: seq<byte>)
    ensures SumA(a, s + t) == SumA(SumA(a, s), t) && SumB(a, b, s + t) == SumB(SumA(a, s), SumB(a, b, s), t)
  {
    if t == [] {
      assert s + t == s;
    } else {
      var u := t[..|t| - 1];
      SumConcat(a, b, s, u);
      assert (s + t)[..|s + t| - 1] == s + u;
    }
  }

  /** Bytes are at most 255, so n of them cannot carry the sums past these bounds. */
  lemma {:induction false} SumBounds(a: nat, b: nat, s: seq<byte>)
    ensures SumA(a, s) <= a + 255 * |s|
    ensures 2 * SumB(a, b, s) <= 2 * b + 2 * (|s| * a) + 255 * (|s| * (|s| + 1))
  {
    if s != [] {
      var t := s[..|s| - 1];
      hide *;
      SumBounds(a, b, t);
      assert s == t + [s[|s| - 1]];
      SumNext(a, b, t, s[|s| - 1]);
      BoundNext(|t|, a);
    }
  }

  lemma BoundNext(n: nat, a: nat)
    ensures (n + 1) * a == n * a + a
    ensures (n + 1) * ((n + 1) + 1) == n * (n + 1) + 2 * (n + 1)
  {
    Distribute(n, 1, a);
    Distribute(n, 2, n + 1);
  }

  // ---- arithmetic modulo BASE ----

  lemma ModPlus(x: nat, k: nat)
    ensures Reduced(x + k * BASE) == Reduced(x)
  {
    DivModOf(x, BASE);
    DivModIs(x + k * BASE, BASE, x / BASE + k, x % BASE);
  }

  lemma SameMod(x: nat, y: nat, k: nat)
    requires x == y + k * BASE
    ensures Reduced(x) == Reduced(y)
  {
    ModPlus(y, k);
  }

  lemma ReducedTwice(x: nat)
    ensures Reduced(Reduced(x)) == Reduced(x)
  {
  }

  lemma SmallReduced(x: nat)
    requires x < BASE
    ensures Reduced(x) == x
  {
  }

  /** Congruent numbers stay congruent when the same is added to both ... */
  lemma CongruentPlus(x: nat, y: nat, z: nat)
    requires Reduced(x) == Reduced(y)
    ensures Reduced(x + z) == Reduced(y + z)
  {
    DivModOf(x, BASE);
    DivModOf(y, BASE);
    SameMod(x + z, x % BASE + z, x / BASE);
    SameMod(y + z, y % BASE + z, y / BASE);
  }

  /** ... or when both are multiplied by it ... */
  lemma {:induction false} CongruentTimes(x: nat, y: nat, k: nat)
    requires Reduced(x) == Reduced(y)
    ensures Reduced(k * x) == Reduced(k * y)
    decreases k
  {
    hide Reduced;
    if k > 0 {
      CongruentTimes(x, y, k - 1);
      assert k * x == (k - 1) * x + x && k * y == (k - 1) * y + y;
      CongruentPlus((k - 1) * x, (k - 1) * y, x);
      CongruentPlus(x, y, (k - 1) * y);
    }
  }

  /** ... or taken off both. */
  lemma CongruentMinus(x: nat, y: nat, z: nat)
    requires Reduced(x + z) == Reduced(y + z)
    ensures Reduced(x) == Reduced(y)
  {
    hide Reduced;
    var m := z * (BASE - 1);
    CongruentPlus(x + z, y + z, m);
    assert z + m == z * BASE;
    ModPlus(x, z);
    ModPlus(y, z);
  }

  /** Reducing the starting values first makes no difference to the reduced sums. */
  lemma CongruentSums(a: nat, b: nat, c: nat, d: nat, s: seq<byte>)
    requires Reduced(a) == Reduced(c) && Reduced(b) == Reduced(d)
    ensures Reduced(SumA(a, s)) == Reduced(SumA(c, s))
    ensures Reduced(SumB(a, b, s)) == Reduced(SumB(c, d, s))
  {
    hide SumA, SumB, Reduced;
    SumShift(a, b, s);
    SumShift(c, d, s);
    var u, v := SumA(0, s), SumB(0, 0, s);
    CongruentPlus(a, c, u);
    CongruentTimes(a, c, |s|);
    CongruentPlus(|s| * a, |s| * c, b + v);
    CongruentPlus(b, d, |s| * c + v);
  }

  // ---- reductions without division ----

  /** 65536 is 15 more than BASE, so the upper half may be folded down fifteenfold. */
  function Chop(a: nat): (r: nat)
    ensures Reduced(r) == Reduced(a) && r <= 0xffff + 15 * (a / 0x1_0000)
  {
    var tmp := a / 0x1_0000;
    assert tmp * 16 - tmp == 15 * tmp && a == (a % 0x1_0000 + 15 * tmp) + tmp * BASE;
    SameMod(a, a % 0x1_0000 + 15 * tmp, tmp);
    a % 0x1_0000 + (tmp * 16 - tmp)
  }

  function Mod28(a: nat): (r: nat)
    requires a < 0x1000_0000
    ensures r == Reduced(a)
  {
    var c := Chop(a);
    if c >= BASE then c - BASE else c
  }

  function Mod(a: nat): (r: nat)
    requires a < WORD
    ensures r == Reduced(a)
  {
    Mod28(Chop(a))
  }

  /** For lengths of up to 63 bits; 2^32 is congruent to 225. */
  function Mod63(a: nat): (r: nat)
    requires a < 0x8000_0000_0000_0000
    ensures r == Reduced(a)
  {
    var tmp := a / WORD;
    var low := a % WORD + (tmp * 256 - tmp * 32 + tmp);
    assert a == low + tmp * (WORD - 225) && tmp * (WORD - 225) == (tmp * 65551) * BASE;
    SameMod(a, low, tmp * 65551);
    var c := Chop(Chop(low));
    if c >= BASE then c - BASE else c
  }

  // ---- the running checksum ----

  /** Adds bytes to both sums without reducing; no sum leaves 32 bits. */
  method AddBytes(a0: nat, b0: nat, buf: seq<byte>) returns (adler: nat, sum2: nat)
    requires |buf| <= NMAX && a0 <= 0xffff && b0 <= 0xffff
    ensures adler == SumA(a0, buf) < WORD && sum2 == SumB(a0, b0, buf) < WORD
  {
    adler, sum2 := a0, b0;
    for i := 0 to |buf|
      invariant adler == SumA(a0, buf[..i]) && sum2 == SumB(a0, b0, buf[..i])
      invariant adler < WORD && sum2 < WORD
    {
      assert buf[..i + 1] == buf[..i] + [buf[i]];
      SumNext(a0, b0, buf[..i], buf[i]);
      NoOverflow(a0, b0, buf[..i + 1]);
      adler := adler + buf[i];
      assert adler < WORD;
      sum2 := sum2 + adler;
      assert sum2 < WORD;
    }
    assert buf[..|buf|] == buf;
  }

  lemma NoOverflow(a: nat, b: nat, s: seq<byte>)
    requires |s| <= NMAX && a <= 0xffff && b <= 0xffff
    ensures SumA(a, s) < WORD && SumB(a, b, s) < WORD
  {
    hide SumA, SumB;
    SumBounds(a, b, s);
    var n := |s|;
    TimesUp(n, NMAX, a);
    TimesUp(n, NMAX, n + 1);
    TimesUp(n + 1, NMAX + 1, NMAX);
    assert NMAX * a <= NMAX * 0xffff;
    assert n * (n + 1) <= NMAX * (NMAX + 1);
  }

  /** One byte at a time, each sum is brought back by at most one subtraction. */
  method AddOne(a: nat, b: nat, c: byte) returns (adler: nat, sum2: nat)
    requires a < BASE && b < BASE
    ensures adler == Reduced(a + c) && sum2 == Reduced(b + a + c)
  {
    adler := a + c;
    if adler >= BASE { adler := adler - BASE; }
    sum2 := b + adler;
    if sum2 >= BASE { sum2 := sum2 - BASE; }
  }

  /** Up to fifteen bytes need no full reduction. */
  method AddFew(a: nat, b: nat, buf: seq<byte>) returns (adler: nat, sum2: nat)
    requires a < BASE && b < BASE && |buf| < 16
    ensures adler == Reduced(SumA(a, buf)) && sum2 == Reduced(SumB(a, b, buf))
  {
    hide SumA, SumB;
    ShortBound(a, b, buf);
    adler, sum2 := AddBytes(a, b, buf);
    if adler >= BASE { adler := adler - BASE; }
    sum2 := Mod28(sum2);
  }

  /** The checksum after buf, from the checksum before it. */
  method Adler32(adler0: nat, buf: seq<byte>) returns (r: nat)
    requires adler0 % 0x1_0000 < BASE && adler0 / 0x1_0000 < BASE
    ensures r == Packed(SumA(adler0 % 0x1_0000, buf), SumB(adler0 % 0x1_0000, adler0 / 0x1_0000, buf))
  {
    hide SumA, SumB, Reduced;
    var sum2, adler := adler0 / 0x1_0000, adler0 % 0x1_0000;
    if |buf| == 1 {
      OneByte(adler, sum2, buf);
      adler, sum2 := AddOne(adler, sum2, buf[0]);
    } else if |buf| < 16 {
      adler, sum2 := AddFew(adler, sum2, buf);
    } else {
      adler, sum2 := LongSums(adler, sum2, buf);
    }
    return adler + 0x1_0000 * sum2;
  }

  /** Checksums may be taken piece by piece. */
  method Adler32Next(ghost x: seq<byte>, adler0: nat, y: seq<byte>) returns (r: nat)
    requires adler0 == AdlerOf(x)
    ensures r == AdlerOf(x + y)
  {
    hide SumA, SumB, Reduced;
    r := Adler32(adler0, y);
    SumConcat(1, 0, x, y);
    var a, b := adler0 % 0x1_0000, adler0 / 0x1_0000;
    SmallReduced(a);
    SmallReduced(b);
    CongruentSums(a, b, SumA(1, x), SumB(1, 0, x), y);
  }

  /** Blocks of 5552 bytes and a rest, each followed by one reduction. */
  method LongSums(a: nat, b: nat, buf: seq<byte>) returns (adler: nat, sum2: nat)
    requires a <= 0xffff && b <= 0xffff && buf != []
    ensures adler == Reduced(SumA(a, buf)) && sum2 == Reduced(SumB(a, b, buf))
  {
    hide SumA, SumB, Reduced;
    adler, sum2 := a, b;
    var i := 0;
    NoBytes(a, b);
    while |buf| - i >= NMAX
      invariant 0 <= i <= |buf| && adler <= 0xffff && sum2 <= 0xffff
      invariant i == 0 ==> adler == a && sum2 == b
      invariant i > 0 ==> adler < BASE && sum2 < BASE
      invariant Reduced(adler) == Reduced(SumA(a, buf[..i])) && Reduced(sum2) == Reduced(SumB(a, b, buf[..i]))
    {
      NextBlock(a, b, buf, i, i + NMAX, adler, sum2);
      adler, sum2 := AddBytes(adler, sum2, buf[i..i + NMAX]);
      adler := Mod(adler);
      sum2 := Mod(sum2);
      SmallReduced(adler);
      SmallReduced(sum2);
      i := i + NMAX;
    }
    if i < |buf| {
      NextBlock(a, b, buf, i, |buf|, adler, sum2);
      adler, sum2 := AddBytes(adler, sum2, buf[i..]);
      adler := Mod(adler);
      sum2 := Mod(sum2);
    } else {
      SmallReduced(adler);
      SmallReduced(sum2);
    }
    assert buf[..|buf|] == buf;
  }

  lemma NoBytes(a: nat, b: nat)
    ensures forall s: seq<byte> {:trigger SumA(a, s[..0])} :: SumA(a, s[..0]) == a && SumB(a, b, s[..0]) == b
  {
  }

  /** Sums carried on from reduced values are congruent to the sums from the start. */
  lemma NextBlock(a: nat, b: nat, buf: seq<byte>, i: nat, j: nat, adler: nat, sum2: nat)
    requires i <= j <= |buf|
    requires Reduced(adler) == Reduced(SumA(a, buf[..i])) && Reduced(sum2) == Reduced(SumB(a, b, buf[..i]))
    ensures Reduced(SumA(adler, buf[i..j])) == Reduced(SumA(a, buf[..j]))
    ensures Reduced(SumB(adler, sum2, buf[i..j])) == Reduced(SumB(a, b, buf[..j]))
  {
    hide SumA, SumB, Reduced;
    SumConcat(a, b, buf[..i], buf[i..j]);
    assert buf[..i] + buf[i..j] == buf[..j];
    CongruentSums(adler, sum2, SumA(a, buf[..i]), SumB(a, b, buf[..i]), buf[i..j]);
  }

  lemma OneByte(a: nat, b: nat, buf: seq<byte>)
    requires |buf| == 1
    ensures SumA(a, buf) == a + buf[0] && SumB(a, b, buf) == b + a + buf[0]
  {
    assert buf == [] + [buf[0]];
    SumNext(a, b, [], buf[0]);
  }

  lemma ShortBound(a: nat, b: nat, buf: seq<byte>)
    requires |buf| < 16 && a <= 0xffff && b <= 0xffff
    ensures SumA(a, buf) <= a + 3825 && SumB(a, b, buf) < 0x1000_0000
  {
    hide SumA, SumB;
    SumBounds(a, b, buf);
    TimesUp(|buf|, 15, a);
    TimesUp(|buf|, 15, |buf| + 1);
  }

  // ---- combining ----

  /** Two subtractions bring each of the combined sums into range. */
  method Fold(sum1: nat, sum2: nat) returns (a: nat, b: nat)
    requires sum1 < 3 * BASE && sum2 < 4 * BASE
    ensures a == Reduced(sum1) && b == Reduced(sum2)
  {
    a, b := sum1, sum2;
    if a >= BASE { a := a - BASE; }
    if a >= BASE { a := a - BASE; }
    if b >= 2 * BASE { b := b - 2 * BASE; }
    if b >= BASE { b := b - BASE; }
  }

  /** The checksum of two pieces from the checksums of the pieces and the second's length. */
  method Adler32Combine(adler1: nat, adler2: nat, len2: int, ghost x: seq<byte>, ghost y: seq<byte>) returns (r: nat)
    requires adler1 % 0x1_0000 < BASE && adler1 / 0x1_0000 < BASE
    requires adler2 % 0x1_0000 < BASE && adler2 / 0x1_0000 < BASE && len2 < 0x8000_0000_0000_0000
    ensures len2 < 0 ==> r == 0xffff_ffff
    ensures adler1 == AdlerOf(x) && adler2 == AdlerOf(y) && len2 == |y| ==> r == AdlerOf(x + y)
  {
    hide SumA, SumB, AdlerOf, Reduced;
    if len2 < 0 { return 0xffff_ffff; }
    var rem := Mod63(len2);
    var sum1 := adler1 % 0x1_0000;
    ProductSmall(rem, sum1);
    var sum2 := Mod(rem * sum1);
    if adler1 == AdlerOf(x) && adler2 == AdlerOf(y) && len2 == |y| {
      CombinedSums(x, y, sum1, adler1 / 0x1_0000, adler2 % 0x1_0000, adler2 / 0x1_0000, rem, sum2);
    }
    sum1 := sum1 + (adler2 % 0x1_0000 + BASE - 1);
    sum2 := sum2 + (adler1 / 0x1_0000 + adler2 / 0x1_0000 + BASE - rem);
    sum1, sum2 := Fold(sum1, sum2);
    return sum1 + 0x1_0000 * sum2;
  }

  lemma ProductSmall(a: nat, b: nat)
    requires a < BASE && b <= 0xffff
    ensures 0 <= a * b < WORD
  {
    TimesUp(a, BASE, b);
  }

  lemma CombinedSums(x: seq<byte>, y: seq<byte>, a1: nat, b1: nat, a2: nat, b2: nat, rem: nat, prod: nat)
    requires AdlerOf(x) % 0x1_0000 == a1 && AdlerOf(x) / 0x1_0000 == b1
    requires AdlerOf(y) % 0x1_0000 == a2 && AdlerOf(y) / 0x1_0000 == b2
    requires rem == Reduced(|y|) && prod == Reduced(rem * a1)
    ensures prod + b1 + b2 + BASE >= rem
    ensures AdlerOf(x + y) == Reduced(a1 + a2 + BASE - 1) + 0x1_0000 * Reduced(prod + b1 + b2 + BASE - rem)
  {
    hide SumA, SumB, Reduced;
    var n, p, q, u, v := |y|, SumA(1, x), SumB(1, 0, x), SumA(0, y), SumB(0, 0, y);
    SumConcat(1, 0, x, y);
    SumShift(p, q, y);
    SumShift(1, 0, y);
    FirstSums(p, u, a1, a2);
    SecondSums(n, p, q, v, a1, rem, b1, b2, prod);
  }

  lemma FirstSums(p: nat, u: nat, a1: nat, a2: nat)
    requires a1 == Reduced(p) && a2 == Reduced(1 + u)
    ensures Reduced(p + u) == Reduced(a1 + a2 + BASE - 1)
  {
    hide Reduced;
    ReducedTwice(p);
    ReducedTwice(1 + u);
    CongruentPlus(p, a1, 1 + u);
    CongruentPlus(1 + u, a2, a1);
    ModPlus(a1 + a2, 1);
    CongruentMinus(p + u, a1 + a2 + BASE - 1, 1);
  }

  lemma SecondSums(n: nat, p: nat, q: nat, v: nat, a1: nat, rem: nat, b1: nat, b2: nat, prod: nat)
    requires a1 == Reduced(p) && rem == Reduced(n) && b1 == Reduced(q) && b2 == Reduced(n * 1 + v)
             && prod == Reduced(rem * a1)
    ensures Reduced(q + n * p + v) == Reduced(prod + b1 + b2 + BASE - rem)
  {
    hide Reduced;
    ReducedTwice(p);
    ReducedTwice(n);
    ReducedTwice(q);
    ReducedTwice(n + v);
    ReducedTwice(rem * a1);
    var e := prod + b1 + b2 + BASE - rem;
    CongruentTimes(p, a1, n);
    CongruentTimes(n, rem, a1);
    assert n * a1 == a1 * n && rem * a1 == a1 * rem;
    CongruentPlus(q, b1, n * p + (n + v));
    CongruentPlus(n * p, prod, b1 + (n + v));
    CongruentPlus(n + v, b2, b1 + prod);
    ModPlus(prod + b1 + b2, 1);
    assert e + rem == prod + b1 + b2 + 1 * BASE;
    CongruentPlus(n, rem, e);
    CongruentMinus(q + n * p + v, e, n);
  }
}
