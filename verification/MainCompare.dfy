/** The comparison at the bottom of the main sorter: characters first, then characters together
    with a cached part of the order found so far. */
module MainCompare {
  import opened Rotations
  import opened RotationRanks

  const N_RADIX: nat := 2
  const N_QSORT: nat := 12
  const N_SHELL: nat := 18
  const N_OVERSHOOT: nat := N_RADIX + N_QSORT + N_SHELL + 2

  /** blk holds the block, and its first characters once more behind it. */
  ghost predicate Overshot(b: Block, blk: seq<byte>) {
    && |b| > N_OVERSHOOT && |blk| >= |b| + N_OVERSHOOT
    && forall i: nat :: i < |b| + N_OVERSHOOT ==> blk[i] == Char(b, i)
  }

  /** Quadrants are repeated behind the block too, and where the characters agree a smaller quadrant
      means a rotation that is not greater. */
  ghost predicate Quadrants(b: Block, rk: seq<nat>, q: seq<nat>) {
    && |b| > N_OVERSHOOT && |q| >= |b| + N_OVERSHOOT && |rk| == |b|
    && (forall i: nat {:trigger q[i]} :: |b| <= i < |b| + N_OVERSHOOT ==> q[i] == q[i - |b|])
    && forall x: nat, y: nat :: x < |b| && y < |b| && b[x] == b[y] && q[x] < q[y] ==> rk[x] <= rk[y]
  }

  /** From i and j on, the comparison of p and q goes on after m equal characters. */
  ghost predicate GoesOn(b: Block, p: nat, q: nat, m: nat, i: nat, j: nat)
    requires |b| > 0
  {
    forall h: nat :: Cmp(b, i, j, h) == Cmp(b, p, q, m + h)
  }

  lemma GoesOnStep(b: Block, p: nat, q: nat, m: nat, i: nat, j: nat)
    requires |b| > 0 && GoesOn(b, p, q, m, i, j) && Char(b, i) == Char(b, j)
    ensures GoesOn(b, p, q, m + 1, i + 1, j + 1)
  {
    var i1, j1 := i + 1, j + 1;
    forall h: nat
      ensures Cmp(b, i1, j1, h) == Cmp(b, p, q, m + 1 + h)
    {
      assert Cmp(b, i, j, 1 + h) == Cmp(b, p, q, m + (1 + h));
    }
  }

  lemma GoesOnWrapped(b: Block, p: nat, q: nat, m: nat, i: nat, j: nat)
    requires |b| > 0 && GoesOn(b, p, q, m, i, j) && i < 2 * |b| && j < 2 * |b|
    ensures GoesOn(b, p, q, m, Wrap(|b|, i), Wrap(|b|, j))
  {
    forall h: nat
      ensures Cmp(b, Wrap(|b|, i), Wrap(|b|, j), h) == Cmp(b, p, q, m + h)
    {
      CmpOnCircle(b, i, j, h);
    }
  }

  lemma CharsDecide(b: Block, p: nat, q: nat, m: nat, i: nat, j: nat)
    requires |b| > 0 && GoesOn(b, p, q, m, i, j) && Char(b, i) != Char(b, j)
    ensures Cmp(b, p, q, |b|) == if Char(b, i) < Char(b, j) then -1 else 1
  {
    assert Cmp(b, i + 1, j + 1, 0) == 0;
    assert Cmp(b, i, j, 1) == Cmp(b, p, q, m + 1);
    Decided(b, p, q, m + 1);
  }

  lemma QuadrantsDecide(b: Block, rk: seq<nat>, qd: seq<nat>, p: nat, q: nat, m: nat, i: nat, j: nat)
    requires Ranks(b, rk) && Quadrants(b, rk, qd) && GoesOn(b, p, q, m, i, j)
    requires i < |b| + N_OVERSHOOT && j < |b| + N_OVERSHOOT && Char(b, i) == Char(b, j) && qd[i] != qd[j]
    ensures if qd[i] < qd[j] then Cmp(b, p, q, |b|) <= 0 else Cmp(b, p, q, |b|) >= 0
  {
    var x, y := Wrap(|b|, i), Wrap(|b|, j);
    CharOnCircle(b, i);
    CharOnCircle(b, j);
    CmpOnCircle(b, i, j, |b|);
    assert qd[x] == qd[i] && qd[y] == qd[j];
    assert Cmp(b, i, j, |b|) == Cmp(b, p, q, m + |b|);
    CmpBeyond(b, p, q, m + |b|);
    CmpAntisymmetric(b, x, y, |b|);
  }

  lemma AllAgree(b: Block, p: nat, q: nat, m: nat, i: nat, j: nat)
    requires |b| > 0 && GoesOn(b, p, q, m, i, j) && m >= |b|
    ensures Cmp(b, p, q, |b|) == 0
  {
    assert Cmp(b, i, j, 0) == Cmp(b, p, q, m + 0);
    CmpBeyond(b, p, q, m);
  }

  /** What a comparison may answer: equal rotations may go either way. */
  ghost predicate Answers(b: Block, p: nat, q: nat, gt: bool)
    requires |b| > 0
  {
    if gt then Cmp(b, p, q, |b|) >= 0 else Cmp(b, p, q, |b|) <= 0
  }

  /** Eight more characters, each with its quadrant. */
  method CompareEight(block: array<byte>, quadrant: array<nat>, at1: nat, at2: nat,
                      ghost b: Block, ghost rk: seq<nat>, ghost p: nat, ghost q: nat, ghost m: nat)
    returns (found: bool, gt: bool)
    requires Overshot(b, block[..]) && Ranks(b, rk) && Quadrants(b, rk, quadrant[..])
    requires at1 + 8 <= |b| + N_OVERSHOOT && at2 + 8 <= |b| + N_OVERSHOOT && GoesOn(b, p, q, m, at1, at2)
    ensures found ==> Answers(b, p, q, gt)
    ensures !found ==> GoesOn(b, p, q, m + 8, at1 + 8, at2 + 8)
  {
    hide GoesOn, Ranks, Quadrants;
    found, gt := false, false;
    for k := 0 to 8
      invariant GoesOn(b, p, q, m + k, at1 + k, at2 + k)
    {
      var i1, i2 := at1 + k, at2 + k;
      QuadrantsSize(b, rk, quadrant[..]);
      assert block[i1] == Char(b, i1) && block[i2] == Char(b, i2);
      if block[i1] != block[i2] {
        CharsDecide(b, p, q, m + k, i1, i2);
        return true, block[i1] > block[i2];
      }
      if quadrant[i1] != quadrant[i2] {
        QuadrantsDecide(b, rk, quadrant[..], p, q, m + k, i1, i2);
        return true, quadrant[i1] > quadrant[i2];
      }
      GoesOnStep(b, p, q, m + k, i1, i2);
    }
  }

  lemma QuadrantsSize(b: Block, rk: seq<nat>, q: seq<nat>)
    requires Quadrants(b, rk, q)
    ensures |q| >= |b| + N_OVERSHOOT
  {
  }

  /** The first twelve characters, without quadrants. */
  method CompareTwelve(block: array<byte>, at1: nat, at2: nat, ghost b: Block)
    returns (found: bool, gt: bool)
    requires Overshot(b, block[..]) && at1 + 12 <= |b| + N_OVERSHOOT && at2 + 12 <= |b| + N_OVERSHOOT
    ensures found ==> Answers(b, at1, at2, gt)
    ensures !found ==> GoesOn(b, at1, at2, 12, at1 + 12, at2 + 12)
  {
    found, gt := false, false;
    assert GoesOn(b, at1, at2, 0, at1, at2);
    hide GoesOn;
    for k := 0 to 12
      invariant GoesOn(b, at1, at2, k, at1 + k, at2 + k)
    {
      var i1, i2 := at1 + k, at2 + k;
      assert block[i1] == Char(b, i1) && block[i2] == Char(b, i2);
      if block[i1] != block[i2] {
        CharsDecide(b, at1, at2, k, i1, i2);
        return true, block[i1] > block[i2];
      }
      GoesOnStep(b, at1, at2, k, i1, i2);
    }
  }

  /** Is rotation at1 greater than rotation at2?  Stops after nblock + 8 characters at the latest. */
  method MainGtU(at1: nat, at2: nat, block: array<byte>, quadrant: array<nat>, nblock: nat, budget: int,
                 ghost b: Block, ghost rk: seq<nat>)
    returns (gt: bool, left: int)
    requires Overshot(b, block[..]) && Ranks(b, rk) && Quadrants(b, rk, quadrant[..]) && nblock == |b|
    requires at1 < nblock + 15 && at2 < nblock + 15
    ensures Answers(b, at1, at2, gt) && left <= budget && (Cmp(b, at1, at2, 12) != 0 ==> left == budget)
  {
    hide GoesOn, Ranks, Quadrants, Overshot;
    left := budget;
    OvershotSize(b, block[..]);
    var found;
    found, gt := CompareTwelve(block, at1, at2, b);
    if found { return; }
    TwelveEqual(b, at1, at2);
    var i1: nat, i2: nat := at1 + 12, at2 + 12;
    ghost var m: nat := 12;
    var k: int := nblock + 8;
    while true
      invariant i1 < nblock + 27 && i2 < nblock + 27 && k >= 0 && m + k == nblock + 20
      invariant GoesOn(b, at1, at2, m, i1, i2) && left <= budget
      decreases k
    {
      found, gt := CompareEight(block, quadrant, i1, i2, b, rk, at1, at2, m);
      if found { return; }
      GoesOnWrapped(b, at1, at2, m + 8, i1 + 8, i2 + 8);
      i1, i2 := Wrap(nblock, i1 + 8), Wrap(nblock, i2 + 8);
      m := m + 8;
      k := k - 8;
      left := left - 1;
      if k < 0 { break; }
    }
    AllAgree(b, at1, at2, m, i1, i2);
    gt := false;
  }

  lemma TwelveEqual(b: Block, p: nat, q: nat)
    requires |b| > 0 && GoesOn(b, p, q, 12, p + 12, q + 12)
    ensures Cmp(b, p, q, 12) == 0
  {
    assert Cmp(b, p + 12, q + 12, 0) == Cmp(b, p, q, 12 + 0);
  }

  // ---- what comparisons cost ----

  /** Twelve characters are enough to tell any two rotations apart. */
  ghost predicate TwelveTell(b: Block)
    requires |b| > 0
  {
    forall x: nat, y: nat :: x < |b| && y < |b| && x != y ==> Cmp(b, x, y, 12) != 0
  }

  /** No entry comes twice. */
  ghost predicate Distinct(f: seq<nat>) {
    forall x: nat :: multiset(f)[x] <= 1
  }

  /** The budget has not grown, and is untouched where comparisons of twelve characters do. */
  ghost predicate Paid(b: Block, f: seq<nat>, budget: int, left: int) {
    left <= budget && (|b| > 0 && TwelveTell(b) && Distinct(f) ==> left == budget)
  }

  /** The same of a sorter that compares no rotation with itself. */
  ghost predicate Thrifty(b: Block, budget: int, left: int) {
    left <= budget && (|b| > 0 && TwelveTell(b) ==> left == budget)
  }

  lemma ThriftyBoth(b: Block, budget: int, mid: int, left: int)
    requires Thrifty(b, budget, mid) && Thrifty(b, mid, left)
    ensures Thrifty(b, budget, left)
  {
    hide TwelveTell;
  }

  lemma ThriftyNothing(b: Block, budget: int)
    ensures Thrifty(b, budget, budget)
  {
  }

  lemma ThriftySays(b: Block, budget: int, left: int)
    requires Thrifty(b, budget, left)
    ensures left <= budget
  {
  }

  lemma PaidOnce(b: Block, f: seq<nat>, budget: int, left: int)
    requires Paid(b, f, budget, left) && |b| > 0 && IsPerm(f, |b|)
    ensures Thrifty(b, budget, left)
  {
    hide TwelveTell;
    forall x: nat ensures multiset(f)[x] <= 1 { AtMostOnce(f, |b|, x); }
  }

  lemma {:induction false} AtMostOnce(f: seq<nat>, n: nat, x: nat)
    requires forall i, j :: 0 <= i < j < |f| ==> f[i] != f[j]
    ensures multiset(f)[x] <= 1
  {
    if f != [] {
      var g, y := f[..|f| - 1], f[|f| - 1];
      AtMostOnce(g, n, x);
      assert f == g + [y];
      if x == y { assert x !in g; }
    }
  }

  lemma PaidNothing(b: Block, f: seq<nat>, budget: int)
    ensures Paid(b, f, budget, budget)
  {
  }

  lemma PaidBoth(b: Block, f: seq<nat>, g: seq<nat>, budget: int, mid: int, left: int)
    requires Paid(b, f, budget, mid) && Paid(b, g, mid, left) && multiset(f) == multiset(g)
    ensures Paid(b, f, budget, left)
  {
    hide TwelveTell;
  }

  lemma OvershotSize(b: Block, blk: seq<byte>)
    requires Overshot(b, blk)
    ensures |b| > N_OVERSHOOT && |blk| >= |b| + N_OVERSHOOT
  {
  }
}
