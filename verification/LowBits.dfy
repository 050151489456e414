/** Bit streams whose first bit is the lowest bit of a number. */
module LowBits {
  import opened Powers
  import opened Products
  import opened Rotations

  function Quotient(v: nat, d: nat): nat
    requires d > 0
  {
    v / d
  }

  function Remainder(v: nat, d: nat): (r: nat)
    requires d > 0
    ensures r < d
  {
    v % d
  }

  /** The first n bits. */
  function Low(v: nat, n: nat): (r: nat)
    ensures r < Pow2(n)
  {
    Remainder(v, Pow2(n))
  }

  /** What is left after n bits. */
  function High(v: nat, n: nat): nat {
    Quotient(v, Pow2(n))
  }

  lemma Unique(v: nat, d: nat, q: nat, r: nat)
    requires v == q * d + r && r < d
    ensures Quotient(v, d) == q && Remainder(v, d) == r
  {
    assert v == (v / d) * d + v % d;
    var p := v / d;
    if q < p {
      TimesStep(q, p, d);
    } else if p < q {
      TimesStep(p, q, d);
    }
  }

  lemma Parts(v: nat, n: nat)
    ensures v == High(v, n) * Pow2(n) + Low(v, n)
  {
    hide Pow2;
  }

  /** A number is made of its first bits and the rest, in one way. */
  lemma Split(v: nat, n: nat, q: nat, r: nat)
    requires v == q * Pow2(n) + r && r < Pow2(n)
    ensures High(v, n) == q && Low(v, n) == r
  {
    hide Pow2;
    Unique(v, Pow2(n), q, r);
  }

  lemma Regroup(q: nat, x: nat, r: nat, p: nat, s: nat)
    requires r < p && s < x
    ensures (q * x + s) * p + r == q * (p * x) + (s * p + r) && s * p + r < p * x
  {
    Distribute(q * x, s, p);
    Associate(q, x, p);
    TimesStep(s, x, p);
  }

  /** Taking bits in two steps or in one. */
  lemma TwoSteps(v: nat, a: nat, b: nat)
    ensures High(High(v, a), b) == High(v, a + b)
    ensures Low(v, a + b) == Low(v, a) + Pow2(a) * Low(High(v, a), b)
  {
    hide Low, High, Pow2;
    var h := High(v, a);
    Parts(v, a);
    Parts(h, b);
    Regroup(High(h, b), Pow2(b), Low(v, a), Pow2(a), Low(h, b));
    Pow2Add(a, b);
    var r := Low(h, b) * Pow2(a) + Low(v, a);
    assert v == High(h, b) * Pow2(a + b) + r;
    Split(v, a + b, High(h, b), r);
    assert Pow2(a) * Low(h, b) == Low(h, b) * Pow2(a);
  }

  /** The bits from a on, of the first a + b. */
  lemma Window(v: nat, a: nat, b: nat)
    ensures High(Low(v, a + b), a) == Low(High(v, a), b)
    ensures Low(Low(v, a + b), a) == Low(v, a)
  {
    hide Low, High, Pow2;
    TwoSteps(v, a, b);
    assert Pow2(a) * Low(High(v, a), b) == Low(High(v, a), b) * Pow2(a);
    Split(Low(v, a + b), a, Low(High(v, a), b), Low(v, a));
  }

  lemma Shorter(v: nat, n: nat, m: nat)
    requires m <= n
    ensures Low(Low(v, n), m) == Low(v, m)
  {
    hide Low, High, Pow2;
    assert n == m + (n - m);
    Window(v, m, n - m);
  }

  lemma Nothing(v: nat)
    ensures Low(v, 0) == 0 && High(v, 0) == v
  {
  }

  lemma Small(v: nat, n: nat)
    requires v < Pow2(n)
    ensures Low(v, n) == v && High(v, n) == 0
  {
    hide Pow2;
    Split(v, n, 0, v);
  }

  // ---- bytes as a stream of bits ----

  /** The bytes as one number, first byte lowest. */
  function Number(s: seq<byte>): nat {
    if s == [] then 0 else s[0] + 256 * Number(s[1..])
  }

  /** Skipping eight bits skips a byte. */
  lemma {:induction false} SkipBytes(s: seq<byte>, i: nat)
    requires i <= |s|
    ensures High(Number(s), 8 * i) == Number(s[i..])
    decreases i
  {
    hide Low, High, Pow2;
    if i == 0 {
      assert s[0..] == s;
      Nothing(Number(s));
    } else {
      SkipBytes(s, i - 1);
      var t := s[i - 1..];
      assert t[1..] == s[i..];
      Pow2Values();
      Split(Number(t), 8, Number(t[1..]), t[0]);
      TwoSteps(Number(s), 8 * (i - 1), 8);
    }
  }

  lemma ByteAt(s: seq<byte>, i: nat)
    requires i < |s|
    ensures Low(High(Number(s), 8 * i), 8) == s[i]
  {
    hide Low, High, Pow2;
    SkipBytes(s, i);
    Pow2Values();
    Split(Number(s[i..]), 8, Number(s[i..][1..]), s[i]);
  }
}
