/** Blocks that are a shorter one several times over: these are the blocks with equal rotations. */
module Repetitions {
  import opened Rotations
  import opened Products
  import LowBits

  ghost predicate SameOn(b: Block, g: nat, k: nat)
    requires k + g < |b|
  {
    b[k + g] == b[k]
  }

  /** Every byte comes again g places on. */
  ghost predicate Periodic(b: Block, g: nat) {
    forall k: nat :: k + g < |b| ==> SameOn(b, g, k)
  }

  /** The block is its first g bytes m times over. */
  ghost predicate RepeatedFrom(b: Block, g: nat, m: nat) {
    && 0 < g < |b| && |b| == m * g
    && Periodic(b, g)
  }

  ghost predicate Repetition(b: Block) {
    exists g: nat, m: nat :: RepeatedFrom(b, g, m)
  }

  /** Turned by d the block is itself. */
  ghost predicate Turns(b: Block, d: nat)
    requires |b| > 0
  {
    Cmp(b, 0, d, |b|) == 0
  }

  lemma TurnsFrom(b: Block, d: nat, k: nat, h: nat)
    requires |b| > 0 && Turns(b, d)
    ensures Cmp(b, k, d + k, h) == 0
  {
    CmpSaturates(b, 0, d, k + h);
    CmpSplit(b, 0, d, k, h);
  }

  lemma TurnsLess(b: Block, a: nat, c: nat)
    requires |b| > 0 && Turns(b, a) && Turns(b, c) && c <= a
    ensures Turns(b, a - c)
  {
    TurnsFrom(b, c, a - c, |b|);
    CmpAntisymmetric(b, a - c, a, |b|);
    CmpTransitive(b, 0, a, a - c, |b|);
  }

  /** Turns by two amounts are turns by a common divisor. */
  lemma {:induction false} CommonTurn(b: Block, a: nat, c: nat) returns (g: nat, m: nat, k: nat)
    requires |b| > 0 && a > 0 && c > 0 && Turns(b, a) && Turns(b, c)
    ensures g > 0 && a == m * g && c == k * g && Turns(b, g)
    decreases a + c
  {
    hide Turns;
    if a == c {
      g, m, k := a, 1, 1;
    } else if a > c {
      TurnsLess(b, a, c);
      g, m, k := CommonTurn(b, a - c, c);
      assert (m + k) * g == m * g + k * g;
      m := m + k;
    } else {
      TurnsLess(b, c, a);
      g, m, k := CommonTurn(b, a, c - a);
      assert (m + k) * g == m * g + k * g;
      k := m + k;
    }
  }

  lemma WholeTurn(b: Block)
    requires |b| > 0
    ensures Turns(b, |b|)
  {
    CmpReflexive(b, 0, |b|);
    CmpWrap(b, 0, 0, |b|);
  }

  lemma Factor(k: nat, g: nat)
    ensures k * g > 0 ==> k > 0
    ensures k == 1 ==> k * g == g
  {
    if k == 0 { assert k * g == 0; }
  }

  lemma MultipleBound(k: nat, g: nat)
    requires k > 0
    ensures g <= k * g
  {
    assert k * g == (k - 1) * g + g;
  }

  /** Two equal rotations are a turn of the block into itself. */
  lemma EqualIsTurn(b: Block, x: nat, y: nat)
    requires x < y < |b| && Cmp(b, x, y, |b|) == 0
    ensures Turns(b, y - x)
  {
    var n, d := |b|, y - x;
    CmpSaturates(b, x, y, (n - x) + n);
    CmpSplit(b, x, y, n - x, n);
    assert Cmp(b, 0 + n, d + n, n) == 0;
    CmpWrap(b, 0, d + n, n);
    CmpWrap(b, 0, d, n);
  }

  // ---- how many times ----

  /** The least turn from d on that leaves the block as it is. */
  ghost function LeastTurn(b: Block, d: nat): (g: nat)
    requires 0 < d <= |b|
    ensures d <= g <= |b| && Turns(b, g) && forall k: nat :: d <= k < g ==> !Turns(b, k)
    decreases |b| - d
  {
    WholeTurn(b);
    if Turns(b, d) then d else LeastTurn(b, d + 1)
  }

  /** The length of the shortest block that b is made of, and how many times b has it. */
  ghost function Shortest(b: Block): (g: nat)
    requires |b| > 0
    ensures 0 < g <= |b| && Turns(b, g) && forall k: nat :: 0 < k < g ==> !Turns(b, k)
  {
    LeastTurn(b, 1)
  }

  ghost function Copies(b: Block): nat
    requires |b| > 0
  {
    |b| / Shortest(b)
  }

  /** Every turn is a multiple of the shortest. */
  lemma TurnIsMultiple(b: Block, d: nat) returns (m: nat)
    requires |b| > 0 && d > 0 && Turns(b, d)
    ensures d == m * Shortest(b)
  {
    hide Turns;
    var h, u, k := CommonTurn(b, d, Shortest(b));
    Factor(k, h);
    MultipleBound(k, h);
    m := u;
  }

  lemma {:induction false} MultipleTurns(b: Block, k: nat)
    requires |b| > 0
    ensures k * Shortest(b) >= 0 && Turns(b, k * Shortest(b))
  {
    var g := Shortest(b);
    if k == 0 {
      CmpReflexive(b, 0, |b|);
    } else {
      MultipleTurns(b, k - 1);
      assert k * g == (k - 1) * g + g;
      TurnsFrom(b, g, (k - 1) * g, |b|);
      CmpTransitive(b, 0, (k - 1) * g, k * g, |b|);
    }
  }

  lemma CopiesWhole(b: Block)
    requires |b| > 0
    ensures Copies(b) > 0 && |b| == Copies(b) * Shortest(b)
  {
    hide Turns;
    WholeTurn(b);
    var m := TurnIsMultiple(b, |b|);
    LowBits.Unique(|b|, Shortest(b), m, 0);
    assert LowBits.Quotient(|b|, Shortest(b)) == Copies(b);
    Factor(m, Shortest(b));
  }

  /** Rotations are equal exactly when their places in the shortest block are. */
  lemma EqualExactly(b: Block, x: nat, y: nat)
    requires x < |b| && y < |b|
    ensures Cmp(b, x, y, |b|) == 0 <==> x % Shortest(b) == y % Shortest(b)
  {
    if x <= y { EqualUpwards(b, x, y); } else {
      EqualUpwards(b, y, x);
      CmpAntisymmetric(b, x, y, |b|);
    }
  }

  lemma EqualUpwards(b: Block, x: nat, y: nat)
    requires x <= y < |b|
    ensures Cmp(b, x, y, |b|) == 0 <==> x % Shortest(b) == y % Shortest(b)
  {
    var g := Shortest(b);
    if x == y {
      CmpReflexive(b, x, |b|);
    } else {
      if Cmp(b, x, y, |b|) == 0 {
        EqualIsTurn(b, x, y);
        var m := TurnIsMultiple(b, y - x);
        SamePlace(x, y, g, m);
      }
      if x % g == y % g {
        var k := y / g - x / g;
        PlacesApart(x, y, g);
        MultipleTurns(b, k);
        TurnsFrom(b, y - x, x, |b|);
      }
    }
  }

  lemma SamePlace(x: nat, y: nat, g: nat, m: nat)
    requires g > 0 && y == x + m * g
    ensures x % g == y % g
  {
    Distribute(x / g, m, g);
    LowBits.Unique(y, g, x / g + m, x % g);
    assert LowBits.Remainder(y, g) == y % g;
  }

  lemma PlacesApart(x: nat, y: nat, g: nat)
    requires g > 0 && x <= y && x % g == y % g
    ensures y / g >= x / g && y - x == (y / g - x / g) * g
  {
    assert x == (x / g) * g + x % g && y == (y / g) * g + y % g;
    if y / g < x / g { TimesStep(y / g, x / g, g); }
    Distribute(y / g - x / g, x / g, g);
  }

  /** Only one copy means no repetition. */
  lemma OneCopy(b: Block)
    requires |b| > 0
    ensures Copies(b) == 1 <==> !Repetition(b)
  {
    hide Turns;
    var g, m := Shortest(b), Copies(b);
    CopiesWhole(b);
    if m != 1 {
      MultipleBound(m - 1, g);
      assert m * g == (m - 1) * g + g;
      TurnRepeats(b, g, m);
    }
    if Repetition(b) {
      var d, k :| RepeatedFrom(b, d, k);
      RepeatedTurns(b, d, k);
      Factor(m, g);
    }
  }

  lemma TurnRepeats(b: Block, g: nat, m: nat)
    requires |b| > 0 && 0 < g < |b| && |b| == m * g && Turns(b, g)
    ensures RepeatedFrom(b, g, m)
  {
    forall i: nat | i + g < |b| ensures SameOn(b, g, i) {
      TurnsFrom(b, g, i, 1);
      assert Cmp(b, i, g + i, 1) == 0;
      assert Char(b, i) == Char(b, g + i);
    }
  }

  /** j times g, by adding. */
  function Sum(j: nat, g: nat): nat {
    if j == 0 then 0 else Sum(j - 1, g) + g
  }

  lemma {:induction false} SumIs(j: nat, g: nat)
    ensures Sum(j, g) == j * g
  {
    if j > 0 {
      SumIs(j - 1, g);
      assert j * g == (j - 1) * g + g;
    }
  }

  lemma {:induction false} CopyEqual(b: Block, g: nat, j: nat, i: nat)
    requires Periodic(b, g) && Sum(j, g) + i < |b|
    ensures b[Sum(j, g) + i] == b[i]
    decreases j
  {
    if j > 0 {
      CopyEqual(b, g, j - 1, i);
      assert SameOn(b, g, Sum(j - 1, g) + i);
    }
  }

  lemma {:induction false} PeriodTurns(b: Block, g: nat, k: nat, h: nat)
    requires Periodic(b, g) && k + h + g <= |b|
    ensures |b| > 0 ==> Cmp(b, k, k + g, h) == 0
    decreases h
  {
    if h > 0 {
      assert SameOn(b, g, k);
      PeriodTurns(b, g, k + 1, h - 1);
    }
  }

  lemma {:induction false} LastTurns(b: Block, g: nat, j: nat, i: nat, h: nat)
    requires Periodic(b, g) && 0 < |b| == Sum(j, g) + g && i + h <= g
    ensures Cmp(b, Sum(j, g) + i, |b| + i, h) == 0
    decreases h
  {
    if h > 0 {
      CopyEqual(b, g, j, i);
      assert Char(b, Sum(j, g) + i) == b[i] == Char(b, |b| + i);
      LastTurns(b, g, j, i + 1, h - 1);
    }
  }

  lemma RepeatedTurns(b: Block, g: nat, m: nat)
    requires RepeatedFrom(b, g, m)
    ensures Turns(b, g)
  {
    SumIs(m, g);
    hide Periodic;
    Factor(m, g);
    PeriodTurns(b, g, 0, |b| - g);
    LastTurns(b, g, m - 1, 0, g);
    CmpSplit(b, 0, g, |b| - g, g);
  }

  /** A block with two equal rotations is a repetition of a shorter one. */
  lemma EqualRotationsRepeat(b: Block, x: nat, y: nat)
    requires x < y < |b| && Cmp(b, x, y, |b|) == 0
    ensures Repetition(b)
  {
    hide Turns, Repetition;
    EqualIsTurn(b, x, y);
    OneCopy(b);
    CopiesWhole(b);
    Factor(Copies(b), Shortest(b));
  }
}
