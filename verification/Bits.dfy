/** Bit sequences, most significant bit first, and the arithmetic of shifting them through a
    32-bit buffer. */
module Bits {
  import opened Powers
  import opened Products
  import opened Rotations

  // ---- division, stated once ----

  /** A multiple of p other than zero is at least p away from zero. */
  lemma MultipleFar(d: int, p: nat)
    ensures d >= 1 ==> d * p >= p
    ensures d <= -1 ==> d * p + p <= 0
  {
    if d >= 1 { TimesUp(1, d, p); }
    if d <= -1 { TimesUp(d, -1, p); }
  }

  lemma DivModIs(x: int, p: nat, h: int, l: int)
    requires p >= 1 && x == h * p + l && 0 <= l < p
    ensures x / p == h && x % p == l
  {
    var q, r := x / p, x % p;
    assert x == q * p + r;
    Distribute(q - h, h, p);
    MultipleFar(q - h, p);
  }

  lemma DivModOf(x: nat, p: nat)
    requires p >= 1
    ensures x == (x / p) * p + x % p && 0 <= x % p < p && x / p >= 0
  {
  }

  lemma QuotientBelow(t: nat, p: nat, k: nat)
    requires p >= 1 && t < k * p
    ensures t == (t / p) * p + t % p && t / p < k
  {
    DivModOf(t, p);
    if t / p >= k { TimesUp(k, t / p, p); }
  }

  /** The n low bits of v. */
  function BitsOf(v: nat, n: nat): (b: seq<bool>)
    ensures |b| == n
  {
    if n == 0 then [] else BitsOf(v / 2, n - 1) + [v % 2 == 1]
  }

  function Value(b: seq<bool>): nat {
    if b == [] then 0 else 2 * Value(b[..|b| - 1]) + (if b[|b| - 1] then 1 else 0)
  }

  lemma {:induction false} ValueBound(b: seq<bool>)
    ensures Value(b) < Pow2(|b|)
  {
    if b != [] { ValueBound(b[..|b| - 1]); }
  }

  lemma {:induction false} ValueOfBits(v: nat, n: nat)
    requires v < Pow2(n)
    ensures Value(BitsOf(v, n)) == v
    decreases n
  {
    if n > 0 {
      ValueOfBits(v / 2, n - 1);
      assert BitsOf(v, n)[..n - 1] == BitsOf(v / 2, n - 1);
    }
  }

  lemma {:induction false} BitsOfValue(b: seq<bool>)
    ensures BitsOf(Value(b), |b|) == b
  {
    if b != [] {
      var c := b[..|b| - 1];
      BitsOfValue(c);
      assert Value(b) / 2 == Value(c);
      assert b == c + [b[|b| - 1]];
    }
  }

  /** High part and low part of a value are the front and the back of its bits. */
  lemma {:induction false} BitsOfSum(a: nat, m: nat, v: nat, n: nat)
    requires v < Pow2(n)
    ensures BitsOf(a * Pow2(n) + v, m + n) == BitsOf(a, m) + BitsOf(v, n)
    decreases n
  {
    if n == 0 {
      assert a * Pow2(n) + v == a;
      assert BitsOf(v, n) == [];
    } else {
      var p := Pow2(n - 1);
      assert a * Pow2(n) == 2 * (a * p);
      assert (a * Pow2(n) + v) / 2 == a * p + v / 2;
      assert (a * Pow2(n) + v) % 2 == v % 2;
      BitsOfSum(a, m, v / 2, n - 1);
      assert m + n - 1 == m + (n - 1);
    }
  }

  function BytesBits(s: seq<byte>): (b: seq<bool>)
    ensures |b| == 8 * |s|
  {
    if s == [] then [] else BytesBits(s[..|s| - 1]) + BitsOf(s[|s| - 1], 8)
  }

  lemma {:induction false} BytesBitsConcat(s: seq<byte>, t: seq<byte>)
    ensures BytesBits(s + t) == BytesBits(s) + BytesBits(t)
  {
    hide BitsOf;
    if t == [] {
      assert s + t == s;
    } else {
      var u, last := t[..|t| - 1], t[|t| - 1];
      BytesBitsConcat(s, u);
      assert (s + t)[..|s + t| - 1] == s + u && (s + t)[|s + t| - 1] == last;
      Assoc(BytesBits(s), BytesBits(u), BitsOf(last, 8));
    }
  }

  lemma BytesBitsFirst(s: seq<byte>)
    requires s != []
    ensures BytesBits(s) == BitsOf(s[0], 8) + BytesBits(s[1..])
  {
    BytesBitsConcat(s[..1], s[1..]);
    assert s == s[..1] + s[1..];
    assert BytesBits(s[..1]) == BytesBits(s[..1][..0]) + BitsOf(s[0], 8);
  }

  // ---- arithmetic of the write buffer ----

  /** The top live bits of a 32-bit buffer hold the value t, the others are clear. */
  ghost predicate TopHolds(buff: nat, live: nat, t: nat) {
    live <= 32 && t < Pow2(live) && buff == t * Pow2(32 - live)
  }

  lemma TopBound(buff: nat, live: nat, t: nat)
    requires TopHolds(buff, live, t)
    ensures buff < 0x1_0000_0000
  {
    Pow2Values();
    Pow2Add(live, 32 - live);
    TimesStep(t, Pow2(live), Pow2(32 - live));
  }

  lemma TopPowers(live: nat)
    requires 8 <= live <= 32
    ensures Pow2(live - 8) * Pow2(32 - live) == 0x100_0000
    ensures Pow2(live) == 256 * Pow2(live - 8) && Pow2(32 - (live - 8)) == Pow2(32 - live) * 256
  {
    hide Pow2;
    Pow2Values();
    Pow2Add(live - 8, 32 - live);
    Pow2Add(8, live - 8);
    Pow2Add(32 - live, 8);
  }

  /** Taking the top byte out: the byte is the front eight bits, the rest moves up. */
  lemma TopByte(buff: nat, live: nat, t: nat)
    requires TopHolds(buff, live, t) && live >= 8
    ensures var q, r := t / Pow2(live - 8), t % Pow2(live - 8);
            && buff / 0x100_0000 == q < 256
            && TopHolds((buff * 256) % 0x1_0000_0000, live - 8, r)
            && BitsOf(t, live) == BitsOf(q, 8) + BitsOf(r, live - 8)
  {
    hide Pow2, BitsOf;
    var p, s := Pow2(live - 8), Pow2(32 - live);
    var q, r := t / p, t % p;
    TopPowers(live);
    QuotientBelow(t, p, 256);
    BitsOfSum(q, 8, r, live - 8);
    TopByteArithmetic(t, p, s, q, r);
  }

  lemma TopByteArithmetic(t: nat, p: nat, s: nat, q: nat, r: nat)
    requires s >= 1 && p * s == 0x100_0000 && t == q * p + r && r < p && q < 256
    ensures (t * s) / 0x100_0000 == q
    ensures (t * s * 256) % 0x1_0000_0000 == r * (s * 256)
  {
    Distribute(q * p, r, s);
    Associate(q, p, s);
    TimesStep(r, p, s);
    DivModIs(t * s, 0x100_0000, q, r * s);
    Associate(r, s, 256);
    DivModIs(t * s * 256, 0x1_0000_0000, q, r * s * 256);
  }

  /** Putting n bits below the live ones: the shifted value does not overlap them. */
  lemma TopAppend(buff: nat, live: nat, t: nat, n: nat, v: nat)
    requires TopHolds(buff, live, t) && live + n <= 32 && v < Pow2(n)
    ensures 0 <= v * Pow2(32 - live - n) < Pow2(32 - live) && t * Pow2(n) >= 0
    ensures buff % Pow2(32 - live) == 0
    ensures TopHolds(buff + v * Pow2(32 - live - n), live + n, t * Pow2(n) + v)
    ensures BitsOf(t * Pow2(n) + v, live + n) == BitsOf(t, live) + BitsOf(v, n)
  {
    hide Pow2, BitsOf;
    var s, p := Pow2(32 - live - n), Pow2(n);
    Pow2Add(n, 32 - live - n);
    Pow2Add(live, n);
    TimesStep(t, Pow2(live), p);
    BitsOfSum(t, live, v, n);
    AppendArithmetic(t, p, s, v);
  }

  lemma AppendArithmetic(t: nat, p: nat, s: nat, v: nat)
    requires v < p && s >= 1 && p * s >= 1
    ensures 0 <= v * s < p * s && t * p >= 0
    ensures (t * p + v) * s == t * (p * s) + v * s
    ensures (t * (p * s)) % (p * s) == 0
  {
    TimesStep(v, p, s);
    MultipleMod(t, p * s);
    Distribute(t * p, v, s);
    Associate(t, p, s);
  }

  lemma MultipleMod(t: nat, s: nat)
    requires s >= 1
    ensures (t * s) % s == 0
  {
    DivModIs(t * s, s, t, 0);
  }

  // ---- arithmetic of the read buffer ----

  /** The low live bits of the buffer hold the value l; what is above does not matter. */
  ghost predicate LowHolds(buff: nat, live: nat, l: nat) {
    live <= 32 && buff < 0x1_0000_0000 && l < Pow2(live) && buff % Pow2(live) == l
  }

  /** One more byte shifted in from below. */
  lemma LowAppend(buff: nat, live: nat, l: nat, c: byte)
    requires LowHolds(buff, live, l) && live <= 24
    ensures LowHolds((buff * 256) % 0x1_0000_0000 + c, live + 8, l * 256 + c)
    ensures BitsOf(l * 256 + c, live + 8) == BitsOf(l, live) + BitsOf(c, 8)
  {
    hide Pow2, BitsOf;
    Pow2Values();
    Pow2Add(live, 8);
    Pow2Add(live + 8, 24 - live);
    assert live + 8 + (24 - live) == 32;
    BitsOfSum(l, live, c, 8);
    LowAppendArithmetic(buff, Pow2(live), Pow2(24 - live), l, c);
  }

  lemma LowAppendArithmetic(buff: nat, p: nat, g: nat, l: nat, c: byte)
    requires p >= 1 && buff % p == l && (p * 256) * g == 0x1_0000_0000
    ensures l * 256 + c < p * 256
    ensures (buff * 256) % 0x1_0000_0000 + c < 0x1_0000_0000
    ensures ((buff * 256) % 0x1_0000_0000 + c) % (p * 256) == l * 256 + c
  {
    ScaledMod(buff, 0x100_0000, 0);
    var y := buff % 0x100_0000;
    ScaledMod(y, p, c);
    assert g * p == 0x100_0000;
    ModTwice(buff, g, p);
    TimesStep(l, p, 256);
  }

  lemma ScaledMod(y: nat, m: nat, c: byte)
    requires m >= 1
    ensures (y * 256 + c) % (m * 256) == (y % m) * 256 + c
  {
    var h, r := y / m, y % m;
    DivModOf(y, m);
    Distribute(h * m, r, 256);
    Associate(h, m, 256);
    TimesStep(r, m, 256);
    DivModIs(y * 256 + c, m * 256, h, r * 256 + c);
  }

  lemma ModTwice(v: nat, g: nat, p: nat)
    requires p >= 1 && g * p >= 1
    ensures (v % (g * p)) % p == v % p
  {
    var h, y := v / (g * p), v % (g * p);
    DivModOf(v, g * p);
    DivModOf(y, p);
    Associate(h, g, p);
    Distribute(h * g, y / p, p);
    DivModIs(v, p, h * g + y / p, y % p);
  }

  /** The front n of the live bits, and what stays. */
  lemma LowTake(buff: nat, live: nat, l: nat, n: nat)
    requires LowHolds(buff, live, l) && n <= live
    ensures var v, r := (buff / Pow2(live - n)) % Pow2(n), l % Pow2(live - n);
            && LowHolds(buff, live - n, r)
            && BitsOf(l, live) == BitsOf(v, n) + BitsOf(r, live - n)
            && v < Pow2(n)
  {
    hide Pow2, BitsOf;
    var p, s := Pow2(n), Pow2(live - n);
    Pow2Add(n, live - n);
    LowTakeArithmetic(buff, p, s, l);
    BitsOfSum(l / s, n, l % s, live - n);
  }

  lemma LowTakeArithmetic(buff: nat, p: nat, s: nat, l: nat)
    requires p >= 1 && s >= 1 && p * s >= 1 && buff % (p * s) == l && l < p * s
    ensures (buff / s) % p == l / s < p && buff % s == l % s
    ensures l == (l / s) * s + l % s
  {
    QuotientBelow(l, s, p);
    DivModOf(buff, p * s);
    var h, v, r := buff / (p * s), l / s, l % s;
    Associate(h, p, s);
    Distribute(h * p, v, s);
    DivModIs(buff, s, h * p + v, r);
    DivModIs(h * p + v, p, h, v);
  }

  lemma Assoc(a: seq<bool>, b: seq<bool>, c: seq<bool>)
    ensures (a + b) + c == a + (b + c)
  {
  }
}
