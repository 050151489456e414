/** Polynomials over GF(2) as their coefficients, the highest first, and the remainder on division by
    the polynomial of both libraries' checksums. */
module Polynomials {

  /** The exponents of the polynomial, besides 32. */
  const TERMS: seq<nat> := [0, 1, 2, 4, 5, 7, 8, 10, 11, 12, 16, 22, 23, 26]

  /** Its coefficients below that of x^32. */
  function Divisor(): (d: seq<bool>)
    ensures |d| == 32 && forall i :: 0 <= i < 32 ==> d[i] == (31 - i in TERMS)
  {
    seq(32, i requires 0 <= i < 32 => 31 - i in TERMS)
  }

  function Sum(a: seq<bool>, b: seq<bool>): (s: seq<bool>)
    requires |a| == |b|
    ensures |s| == |a| && forall i :: 0 <= i < |s| ==> s[i] == (a[i] != b[i])
  {
    seq(|a|, i requires 0 <= i < |a| => a[i] != b[i])
  }

  function Nought(n: nat): (s: seq<bool>)
    ensures |s| == n && forall i :: 0 <= i < n ==> !s[i]
  {
    seq(n, i => false)
  }

  /** Coefficient i, from the top, of the divisor at the front of a longer polynomial, or of nothing. */
  predicate Taken(on: bool, i: nat) {
    on && (i == 0 || (i <= 32 && Divisor()[i - 1]))
  }

  /** Taking the divisor off where the highest coefficient is set. */
  function Reduced(u: seq<bool>): (v: seq<bool>)
    requires |u| > 32
    ensures |v| == |u| - 1
  {
    if u[0] then Sum(u[1..33], Divisor()) + u[33..] else u[1..]
  }

  /** The remainder, by division as it is done by hand. */
  function Remainder(u: seq<bool>): (r: seq<bool>)
    requires |u| >= 32
    ensures |r| == 32
    decreases |u|
  {
    if |u| == 32 then u else Remainder(Reduced(u))
  }

  // ---- what the remainder is ----

  /** A quotient times the divisor. */
  function Times(q: seq<bool>): (p: seq<bool>)
    ensures |p| == |q| + 32
  {
    if q == [] then Nought(32)
    else seq(|q| + 32, i requires 0 <= i < |q| + 32 => Taken(q[0], i) != (i > 0 && Times(q[1..])[i - 1]))
  }

  lemma AddedAt(p: seq<bool>, v: seq<bool>, u: seq<bool>, i: nat)
    requires |u| == |p| == |v| + 1 && u == Sum(p, [false] + v) && i < |v|
    ensures u[0] == p[0] && u[i + 1] == (p[i + 1] != v[i])
  {
    assert ([false] + v)[i + 1] == v[i] && ([false] + v)[0] == false;
  }

  lemma ReducedAt(u: seq<bool>, i: nat)
    requires |u| > 32 && i < |u| - 1
    ensures Reduced(u)[i] == (u[i + 1] != Taken(u[0], i + 1))
  {
    hide Divisor;
    if i < 32 { assert u[1..33][i] == u[i + 1]; } else { assert u[33..][i - 32] == u[i + 1]; }
  }

  /** One step of the division is one coefficient of the quotient. */
  lemma TimesNext(q: seq<bool>, v: seq<bool>, u: seq<bool>)
    requires |u| == |q| + 32 && q != [] && |v| == |u| - 1
    requires u == Sum(Times(q), [false] + v)
    ensures u[0] == q[0] && Reduced(u) == Sum(Times(q[1..]), v)
  {
    hide *;
    TimesFirst(q);
    AddedAt(Times(q), v, u, 0);
    var r, w := Reduced(u), Sum(Times(q[1..]), v);
    forall i | 0 <= i < |v| ensures r[i] == w[i] { TimesNextAt(q, v, u, i); }
  }

  lemma TimesNextAt(q: seq<bool>, v: seq<bool>, u: seq<bool>, i: nat)
    requires |u| == |q| + 32 && q != [] && |v| == |u| - 1 && i < |v|
    requires u == Sum(Times(q), [false] + v)
    ensures Reduced(u)[i] == Sum(Times(q[1..]), v)[i]
  {
    hide *;
    TimesFirst(q);
    AddedAt(Times(q), v, u, i);
    TimesAt(q, i);
    ReducedAt(u, i);
  }

  lemma TimesFirst(q: seq<bool>)
    requires q != []
    ensures Times(q)[0] == q[0]
  {
  }

  lemma TimesAt(q: seq<bool>, i: nat)
    requires q != [] && i < |q| + 31
    ensures Times(q)[i + 1] == (Taken(q[0], i + 1) != Times(q[1..])[i])
  {
    hide Taken;
  }

  lemma NoughtNext(k: nat, r: seq<bool>)
    requires k > 0
    ensures Nought(k) + r == [false] + (Nought(k - 1) + r)
  {
  }

  /** The remainder is all that a multiple of the divisor can leave. */
  lemma {:induction false} RemainderUnique(u: seq<bool>, q: seq<bool>, r: seq<bool>)
    requires |r| == 32 && |u| == |q| + 32 && u == Sum(Times(q), Nought(|q|) + r)
    ensures r == Remainder(u)
    decreases |q|
  {
    if q == [] {
      assert u == r;
    } else {
      NoughtNext(|q|, r);
      TimesNext(q, Nought(|q| - 1) + r, u);
      RemainderUnique(Reduced(u), q[1..], r);
    }
  }

  /** And a multiple of the divisor does leave it. */
  lemma {:induction false} RemainderLeft(u: seq<bool>) returns (q: seq<bool>)
    requires |u| >= 32
    ensures |q| == |u| - 32 && u == Sum(Times(q), Nought(|q|) + Remainder(u))
    decreases |u|
  {
    hide *;
    if |u| == 32 {
      q := [];
      NothingTaken(u);
    } else {
      RemainderStep(u);
      var rest := RemainderLeft(Reduced(u));
      q := [u[0]] + rest;
      assert q[1..] == rest;
      var v := Nought(|rest|) + Remainder(u);
      NoughtNext(|q|, Remainder(u));
      StepBack(u, q, v);
    }
  }

  lemma NothingTaken(u: seq<bool>)
    requires |u| == 32
    ensures u == Sum(Times([]), Nought(0) + Remainder(u))
  {
    assert Nought(0) + u == u;
  }

  lemma RemainderStep(u: seq<bool>)
    requires |u| > 32
    ensures Remainder(u) == Remainder(Reduced(u))
  {
    hide Reduced;
  }

  lemma StepBack(u: seq<bool>, q: seq<bool>, v: seq<bool>)
    requires q != [] && |u| == |q| + 32 && |v| == |u| - 1 && u[0] == q[0]
    requires Reduced(u) == Sum(Times(q[1..]), v)
    ensures u == Sum(Times(q), [false] + v)
  {
    hide *;
    TimesFirst(q);
    var p, w := Times(q), [false] + v;
    forall i | 0 < i < |u| ensures u[i] == Sum(p, w)[i] {
      TimesAt(q, i - 1);
      ReducedAt(u, i - 1);
      assert w[i] == v[i - 1];
    }
  }

  // ---- dividing piece by piece ----

  /** What has been divided already need not be divided again. */
  lemma {:induction false} RemainderLater(u: seq<bool>, v: seq<bool>)
    requires |u| >= 32
    ensures Remainder(u + v) == Remainder(Remainder(u) + v)
    decreases |u|
  {
    if |u| > 32 {
      assert (u + v)[1..33] == u[1..33] && (u + v)[33..] == u[33..] + v && (u + v)[1..] == u[1..] + v;
      assert Reduced(u + v) == Reduced(u) + v;
      RemainderLater(Reduced(u), v);
    }
  }

  /** The last coefficients are added to the remainder as they are. */
  lemma {:induction false} RemainderSum(u: seq<bool>, k: nat, w: seq<bool>)
    requires |u| == k + 32 && |w| == 32
    ensures Remainder(Sum(u, Nought(k) + w)) == Sum(Remainder(u), w)
    decreases k
  {
    if k == 0 {
      assert Nought(0) + w == w;
    } else {
      var s := Sum(u, Nought(k) + w);
      NoughtNext(k, w);
      ReducedSum(u, Nought(k - 1) + w);
      RemainderSum(Reduced(u), k - 1, w);
    }
  }

  lemma ReducedSum(u: seq<bool>, v: seq<bool>)
    requires |u| > 32 && |v| == |u| - 1
    ensures Reduced(Sum(u, [false] + v)) == Sum(Reduced(u), v)
  {
    hide *;
    var s := Sum(u, [false] + v);
    forall i | 0 <= i < |v| ensures Reduced(s)[i] == Sum(Reduced(u), v)[i] {
      AddedAt(u, v, s, i);
      ReducedAt(u, i);
      ReducedAt(s, i);
    }
  }

  /** A register of 32 coefficients in front of k coefficients still to come, and the message added to
      what follows the register: what a checksum is the remainder of. */
  function Dividend(register: seq<bool>, message: seq<bool>): (u: seq<bool>)
    requires |register| == 32
    ensures |u| == |message| + 32
  {
    Sum(register + Nought(|message|), message + Nought(32))
  }

  lemma DividendNone(register: seq<bool>)
    requires |register| == 32
    ensures Remainder(Dividend(register, [])) == register
  {
    assert Dividend(register, []) == register;
  }

  /** Eight more coefficients of the message go into the register, and are divided. */
  lemma DividendNext(register: seq<bool>, message: seq<bool>, next: seq<bool>)
    requires |register| == 32 && |next| == 8
    ensures Remainder(Dividend(register, message + next)) ==
              Remainder(Sum(Remainder(Dividend(register, message)), next + Nought(24)) + Nought(8))
  {
    var u, k, w := Dividend(register, message), |message|, next + Nought(24);
    var v := Sum(u, Nought(k) + w);
    assert Dividend(register, message + next) == v + Nought(8);
    RemainderLater(v, Nought(8));
    RemainderSum(u, k, w);
  }
}
