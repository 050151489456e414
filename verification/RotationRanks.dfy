/** The place of every rotation in the final order, as a number: equal rotations share it.  Sorting
    rotations is sorting by these numbers, whatever cheaper comparisons are used on the way. */
module RotationRanks {
  import opened Rotations

  /** How many of the rotations before k are smaller than x. */
  ghost function Before(b: Block, x: nat, k: nat): (r: nat)
    requires |b| > 0
    ensures r <= k
  {
    if k == 0 then 0 else Before(b, x, k - 1) + (if Cmp(b, k - 1, x, |b|) < 0 then 1 else 0)
  }

  lemma {:induction false} BeforeOrder(b: Block, x: nat, y: nat, k: nat)
    requires |b| > 0 && Cmp(b, x, y, |b|) <= 0
    ensures Before(b, x, k) <= Before(b, y, k)
    ensures x < k && Cmp(b, x, y, |b|) < 0 ==> Before(b, x, k) < Before(b, y, k)
  {
    if k > 0 {
      BeforeOrder(b, x, y, k - 1);
      if Cmp(b, k - 1, x, |b|) < 0 { CmpTransitive(b, k - 1, x, y, |b|); }
      if k - 1 == x { CmpReflexive(b, x, |b|); }
    }
  }

  /** rk orders the rotations as their characters do. */
  ghost predicate Ranks(b: Block, rk: seq<nat>) {
    && |b| > 0 && |rk| == |b|
    && forall x: nat, y: nat :: x < |b| && y < |b| ==> (rk[x] <= rk[y] <==> Cmp(b, x, y, |b|) <= 0)
  }

  ghost function RanksOf(b: Block): (rk: seq<nat>)
    requires |b| > 0
    ensures |rk| == |b|
  {
    seq(|b|, x requires 0 <= x < |b| => Before(b, x, |b|))
  }

  lemma RanksExist(b: Block)
    requires |b| > 0
    ensures Ranks(b, RanksOf(b))
  {
    var rk := RanksOf(b);
    forall x: nat, y: nat | x < |b| && y < |b|
      ensures rk[x] <= rk[y] <==> Cmp(b, x, y, |b|) <= 0
    {
      CmpAntisymmetric(b, x, y, |b|);
      if Cmp(b, x, y, |b|) <= 0 { BeforeOrder(b, x, y, |b|); } else { BeforeOrder(b, y, x, |b|); }
    }
  }

  /** Rotations compared from character d on, when the first d agree. */
  lemma FromDepth(b: Block, x: nat, y: nat, d: nat)
    requires |b| > 0 && Cmp(b, x, y, d) == 0
    ensures Cmp(b, x + d, y + d, |b|) == Cmp(b, x, y, |b|)
  {
    CmpSplit(b, x, y, d, |b|);
    CmpBeyond(b, x, y, d + |b|);
  }

  /** A comparison decided early is decided. */
  lemma Decided(b: Block, x: nat, y: nat, h: nat)
    requires |b| > 0 && Cmp(b, x, y, h) != 0
    ensures Cmp(b, x, y, |b|) == Cmp(b, x, y, h)
  {
    if h <= |b| {
      CmpSplit(b, x, y, h, |b| - h);
    } else {
      CmpBeyond(b, x, y, h);
    }
  }

  /** Positions on the circle. */
  function Wrap(n: nat, i: nat): (r: nat)
    requires 0 < n && i < 2 * n
    ensures r < n
  {
    if i < n then i else i - n
  }

  lemma CharOnCircle(b: Block, i: nat)
    requires |b| > 0 && i < 2 * |b|
    ensures Char(b, i) == b[Wrap(|b|, i)]
  {
  }

  lemma CmpOnCircle(b: Block, i: nat, j: nat, h: nat)
    requires |b| > 0 && i < 2 * |b| && j < 2 * |b|
    ensures Cmp(b, Wrap(|b|, i), Wrap(|b|, j), h) == Cmp(b, i, j, h)
  {
    if i >= |b| { CmpWrap(b, i - |b|, Wrap(|b|, j), h); }
    if j >= |b| { CmpWrap(b, i, j - |b|, h); }
  }

  /** Rotations with the same first character are ordered as those one place on. */
  lemma OrderOneBack(b: Block, rk: seq<nat>, x: nat, y: nat)
    requires Ranks(b, rk) && x < |b| && y < |b| && b[x] == b[y]
    ensures rk[x] <= rk[y] <==> rk[Wrap(|b|, x + 1)] <= rk[Wrap(|b|, y + 1)]
  {
    assert Cmp(b, x + 1, y + 1, 0) == 0;
    FromDepth(b, x, y, 1);
    CmpOnCircle(b, x + 1, y + 1, |b|);
  }
}
