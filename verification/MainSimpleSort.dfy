/** Shell's sort of a short range of rotations that agree on their first d characters. */
module MainSimpleSort {
  import opened Rotations
  import opened RotationRanks
  import opened MainCompare
  import opened Rearrange
  import opened ShellSort

  /** Entries lo..hi agree on their first d characters. */
  ghost predicate Agree(b: Block, f: seq<nat>, lo: int, hi: int, d: nat)
    requires |b| > 0
  {
    forall i, j :: 0 <= lo <= i <= hi < |f| && lo <= j <= hi ==> Cmp(b, f[i], f[j], d) == 0
  }

  lemma AnswersOrder(b: Block, rk: seq<nat>, x: nat, y: nat, d: nat, gt: bool)
    requires Ranks(b, rk) && x < |b| && y < |b| && Cmp(b, x, y, d) == 0 && Answers(b, x + d, y + d, gt)
    ensures if gt then rk[x] >= rk[y] else rk[x] <= rk[y]
  {
    FromDepth(b, x, y, d);
    CmpAntisymmetric(b, x, y, |b|);
  }

  lemma AgreeKept(b: Block, f: seq<nat>, g: seq<nat>, lo: int, i: int, hi: int, d: nat)
    requires |b| > 0 && Agree(b, f, lo, hi, d) && Rearranged(f, g, lo, i) && 0 <= lo <= i <= hi < |f|
    ensures Agree(b, g, lo, hi, d)
  {
    forall x, y | lo <= x <= hi && lo <= y <= hi
      ensures Cmp(b, g[x], g[y], d) == 0
    {
      var x1, y1 := x, y;
      if x <= i { x1 := RearrangedFrom(f, g, lo, i, x); }
      if y <= i { y1 := RearrangedFrom(f, g, lo, i, y); }
      assert f[x1] == g[x] && f[y1] == g[y];
    }
  }

  lemma LooksAgree(b: Block, f: seq<nat>, g: seq<nat>, rk: seq<nat>, lo: int, i: int, hi: int, gap: int, j: int, d: nat)
    requires |b| > 0 && |rk| == |b| && Indexed(f, rk) && Inserting(f, g, rk, lo, i, gap, j) && j - gap >= lo
    requires Agree(b, f, lo, hi, d) && i <= hi < |f|
    ensures Cmp(b, g[j - gap], f[i], d) == 0
  {
    var m := InsertingLooks(f, g, rk, lo, i, gap, j);
  }

  /** The block, its overshoot and the quadrants, as the comparison needs them. */
  ghost predicate Comparable(b: Block, rk: seq<nat>, blk: seq<byte>, q: seq<nat>) {
    Ranks(b, rk) && Overshot(b, blk) && Quadrants(b, rk, q)
  }

  /** Compares two rotations that agree on their first d characters. */
  method Greater(x: nat, y: nat, d: nat, block: array<byte>, quadrant: array<nat>, nblock: nat, budget: int,
                 ghost b: Block, ghost rk: seq<nat>)
    returns (gt: bool, left: int)
    requires Comparable(b, rk, block[..], quadrant[..]) && nblock == |b| == |rk| && d <= 15
    requires x < nblock && y < nblock && Cmp(b, x, y, d) == 0
    ensures if gt then rk[x] >= rk[y] else rk[x] <= rk[y]
    ensures left <= budget && (x != y && TwelveTell(b) ==> left == budget)
  {
    gt, left := MainGtU(x + d, y + d, block, quadrant, nblock, budget, b, rk);
    AnswersOrder(b, rk, x, y, d, gt);
    if x != y && TwelveTell(b) { ToldFurther(b, x, y, d); }
  }

  /** Twelve characters tell also from further on. */
  lemma ToldFurther(b: Block, x: nat, y: nat, d: nat)
    requires |b| > 15 && TwelveTell(b) && x < |b| && y < |b| && x != y && d <= 15
    ensures Cmp(b, x + d, y + d, 12) != 0
  {
    CmpOnCircle(b, x + d, y + d, 12);
  }

  /** The entry in hand is not one of those it is compared with. */
  lemma InHandOnce(f: seq<nat>, g: seq<nat>, rk: seq<nat>, lo: int, i: int, gap: int, j: int)
    requires Indexed(f, rk) && Inserting(f, g, rk, lo, i, gap, j) && lo <= j - gap && Distinct(f)
    ensures g[j - gap] != f[i]
  {
    var h := g[j := f[i]];
    assert multiset(f) == multiset(h);
    if g[j - gap] == f[i] { TwiceIn(h, j - gap, j); }
  }

  lemma TwiceIn(h: seq<nat>, x: int, y: int)
    requires 0 <= x < y < |h| && h[x] == h[y]
    ensures multiset(h)[h[x]] >= 2
  {
    assert h == h[..x + 1] + h[x + 1..];
    assert h[x] in h[..x + 1] && h[x + 1..][y - x - 1] == h[x];
  }

  /** Moves the entry at j - gap into the hole at j if it is greater than the one in hand. */
  method Shift(ptr: array<nat>, block: array<byte>, quadrant: array<nat>, nblock: nat, lo: int, ghost i: int,
               ghost hi: int, gap: int, j: int, v: nat, d: nat,
               budget: int, ghost f: seq<nat>, ghost b: Block, ghost rk: seq<nat>)
    returns (moved: bool, left: int)
    requires ptr != quadrant && nblock == |b| == |rk| > 0 && d <= 15
    requires Comparable(b, rk, block[..], quadrant[..]) && Indexed(f, rk) && |f| == ptr.Length
    requires 0 <= lo <= j - gap && i <= hi < |f| && Agree(b, f, lo, hi, d)
    requires Inserting(f, ptr[..], rk, lo, i, gap, j) && v == f[i]
    modifies ptr
    ensures Paid(b, f, budget, left)
    ensures moved ==> Inserting(f, ptr[..], rk, lo, i, gap, j - gap)
    ensures !moved ==> ptr[..] == old(ptr[..]) && HoleFits(f, ptr[..], rk, lo, i, gap, j)
  {
    InsertingIndexed(f, ptr[..], rk, lo, i, gap, j);
    LooksAgree(b, f, ptr[..], rk, lo, i, hi, gap, j, d);
    if Distinct(f) { InHandOnce(f, ptr[..], rk, lo, i, gap, j); }
    hide Agree, Comparable, Inserting, TwelveTell, Distinct;
    moved, left := Greater(ptr[j - gap], v, d, block, quadrant, nblock, budget, b, rk);
    if moved {
      InsertingStep(f, ptr[..], rk, lo, i, gap, j);
      ptr[j] := ptr[j - gap];
    }
  }

  /** Nothing greater is left to the left of the hole at j. */
  ghost predicate HoleFits(f: seq<nat>, g: seq<nat>, ec: seq<nat>, lo: int, i: int, gap: int, j: int) {
    0 <= i < |f| && f[i] < |ec| && (0 <= lo <= j - gap < |g| ==> g[j - gap] < |ec| && ec[g[j - gap]] <= ec[f[i]])
  }

  lemma NothingToTheLeft(f: seq<nat>, g: seq<nat>, ec: seq<nat>, lo: int, i: int, gap: int, j: int)
    requires 0 <= i < |f| && f[i] < |ec| && j - gap < lo
    ensures HoleFits(f, g, ec, lo, i, gap, j)
  {
  }

  /** Puts the entry in hand into the hole. */
  method Place(ptr: array<nat>, j: int, v: nat, ghost f: seq<nat>, ghost rk: seq<nat>, ghost lo: int, ghost i: int,
               ghost gap: int)
    requires Indexed(f, rk) && Inserting(f, ptr[..], rk, lo, i, gap, j) && HoleFits(f, ptr[..], rk, lo, i, gap, j)
             && v == f[i]
    modifies ptr
    ensures Indexed(ptr[..], rk) && Rearranged(f, ptr[..], lo, i)
    ensures gap == 1 && SortedBetween(f, rk, lo, i - 1) ==> SortedBetween(ptr[..], rk, lo, i)
  {
    InsertingIndexed(f, ptr[..], rk, lo, i, gap, j);
    InsertingEnd(f, ptr[..], rk, lo, i, gap, j);
    hide Rearranged, SortedBetween, Inserting;
    ptr[j] := v;
  }

  /** Moves entry i leftwards in steps of gap past entries that are not smaller. */
  method Insert(ptr: array<nat>, block: array<byte>, quadrant: array<nat>, nblock: nat, lo: int, i: int, hi: int,
                gap: int, d: nat, budget: int,
                ghost b: Block, ghost rk: seq<nat>)
    returns (left: int)
    requires ptr != quadrant && ptr as object != block && nblock == |b| == |rk| > 0 && d <= 15
    requires Comparable(b, rk, block[..], quadrant[..]) && Indexed(ptr[..], rk)
    requires 0 <= lo && 0 < gap && lo + gap <= i <= hi < ptr.Length && ptr[i] < |rk| && Agree(b, ptr[..], lo, hi, d)
    modifies ptr
    ensures Indexed(ptr[..], rk) && Rearranged(old(ptr[..]), ptr[..], lo, i)
    ensures Paid(b, old(ptr[..]), budget, left)
    ensures gap == 1 && SortedBetween(old(ptr[..]), rk, lo, i - 1) ==> SortedBetween(ptr[..], rk, lo, i)
  {
    ghost var f, blk, q := ptr[..], block[..], quadrant[..];
    hide *;
    left := budget;
    PaidNothing(b, f, budget);
    var v := ptr[i];
    var j := i;
    InsertingStart(f, rk, lo, i, gap);
    while true
      invariant lo + gap <= j <= i && Paid(b, f, budget, left)
      invariant Inserting(f, ptr[..], rk, lo, i, gap, j)
      invariant block[..] == blk && quadrant[..] == q
      decreases j
    {
      var moved;
      ghost var before := left;
      moved, left := Shift(ptr, block, quadrant, nblock, lo, i, hi, gap, j, v, d, left, f, b, rk);
      PaidBoth(b, f, f, budget, before, left);
      if !moved { break; }
      j := j - gap;
      if j <= lo + gap - 1 {
        NothingToTheLeft(f, ptr[..], rk, lo, i, gap, j);
        break;
      }
    }
    Place(ptr, j, v, f, rk, lo, i, gap);
  }

  lemma InsertingIndexed(f: seq<nat>, g: seq<nat>, ec: seq<nat>, lo: int, i: int, gap: int, j: int)
    requires Indexed(f, ec) && Inserting(f, g, ec, lo, i, gap, j)
    ensures Indexed(g, ec) && |g| == |f| && 0 <= lo <= j <= i < |f|
  {
  }

  /** One pass over the range with one gap; given up, after every third entry, when the budget is spent. */
  method Pass(ptr: array<nat>, block: array<byte>, quadrant: array<nat>, nblock: nat, lo: int, hi: int, gap: int,
              d: nat, budget: int,
              ghost b: Block, ghost rk: seq<nat>)
    returns (left: int, stop: bool)
    requires ptr != quadrant && ptr as object != block && nblock == |b| == |rk| > 0 && d <= 15
    requires Comparable(b, rk, block[..], quadrant[..]) && Indexed(ptr[..], rk)
    requires 0 <= lo <= hi < ptr.Length && 0 < gap && Agree(b, ptr[..], lo, hi, d)
    modifies ptr
    ensures Indexed(ptr[..], rk) && Rearranged(old(ptr[..]), ptr[..], lo, hi)
    ensures Paid(b, old(ptr[..]), budget, left)
    ensures (stop ==> left < 0) && (gap == 1 && !stop ==> SortedBetween(ptr[..], rk, lo, hi))
  {
    ghost var f, blk, q := ptr[..], block[..], quadrant[..];
    OneSorted(f, rk, lo, lo);
    RearrangedSelf(f, lo, hi);
    hide Agree, Comparable, Rearranged, SortedBetween, Paid;
    left, stop := budget, false;
    PaidNothing(b, f, budget);
    var i := lo + gap;
    while i <= hi
      invariant lo + gap <= i && Paid(b, f, budget, left)
      invariant Indexed(ptr[..], rk) && Rearranged(f, ptr[..], lo, hi) && Agree(b, ptr[..], lo, hi, d)
      invariant block[..] == blk && quadrant[..] == q
      invariant gap == 1 ==> i <= hi + 1 && SortedBetween(ptr[..], rk, lo, i - 1)
    {
      ghost var g, before := ptr[..], left;
      left := Insert(ptr, block, quadrant, nblock, lo, i, hi, gap, d, left, b, rk);
      AgreeKept(b, g, ptr[..], lo, i, hi, d);
      PaidOn(b, f, g, lo, hi, budget, before, left);
      WidenOnce(f, g, ptr[..], lo, i, hi);
      i := i + 1;
      if left < 0 && (i - lo - gap) % 3 == 0 { return left, true; }
    }
  }

  lemma PaidOn(b: Block, f: seq<nat>, g: seq<nat>, lo: int, hi: int, budget: int, mid: int, left: int)
    requires Rearranged(f, g, lo, hi) && Paid(b, f, budget, mid) && Paid(b, g, mid, left)
    ensures Paid(b, f, budget, left)
  {
    PaidBoth(b, f, g, budget, mid, left);
  }

  lemma PaidSays(b: Block, f: seq<nat>, budget: int, left: int)
    requires Paid(b, f, budget, left)
    ensures left <= budget
  {
  }

  lemma WidenOnce(f: seq<nat>, g: seq<nat>, h: seq<nat>, lo: int, i: int, hi: int)
    requires Rearranged(f, g, lo, hi) && Rearranged(g, h, lo, i) && i <= hi
    ensures Rearranged(f, h, lo, hi)
  {
  }

  /** Knuth's increments. */
  function Increment(k: nat): (h: nat)
    ensures h >= k + 1
  {
    if k == 0 then 1 else 3 * Increment(k - 1) + 1
  }

  lemma IncrementsGrow(k: nat)
    ensures Increment(13) == 2391484 && (k < 13 ==> Increment(k) < Increment(k + 1))
  {
    assert Increment(3) == 40;
    assert Increment(6) == 1093;
    assert Increment(9) == 29524;
  }

  /** Sorts entries lo..hi, which agree on their first d characters, unless the budget runs out. */
  method SimpleSort(ptr: array<nat>, block: array<byte>, quadrant: array<nat>, nblock: nat, lo: int, hi: int, d: nat,
                    budget: int,
                    ghost b: Block, ghost rk: seq<nat>)
    returns (left: int)
    requires ptr != quadrant && ptr as object != block && nblock == |b| == |rk| > 0 && d <= 15
    requires Comparable(b, rk, block[..], quadrant[..]) && Indexed(ptr[..], rk)
    requires 0 <= lo && hi < ptr.Length <= 900000 && lo <= hi + 1 && Agree(b, ptr[..], lo, hi, d)
    modifies ptr
    ensures Indexed(ptr[..], rk) && Rearranged(old(ptr[..]), ptr[..], lo, hi)
    ensures left >= 0 ==> SortedBetween(ptr[..], rk, lo, hi)
    ensures Paid(b, old(ptr[..]), budget, left)
  {
    ghost var f, blk, q := ptr[..], block[..], quadrant[..];
    left := budget;
    PaidNothing(b, f, budget);
    RearrangedSelf(f, lo, hi);
    if hi - lo + 1 < 2 {
      OneSorted(f, rk, lo, hi);
      return;
    }
    hide Agree, Comparable, Rearranged, SortedBetween, Paid;
    var hp := 0;
    IncrementsGrow(0);
    while Increment(hp) < hi - lo + 1
      invariant hp <= 13 && ptr[..] == f && (hp == 0 ==> 1 < hi - lo + 1)
      decreases 13 - hp
    {
      IncrementsGrow(hp);
      hp := hp + 1;
    }
    while hp > 0
      invariant hp <= 13 && Paid(b, f, budget, left)
      invariant Indexed(ptr[..], rk) && Rearranged(f, ptr[..], lo, hi) && Agree(b, ptr[..], lo, hi, d)
      invariant block[..] == blk && quadrant[..] == q
      invariant hp == 0 ==> SortedBetween(ptr[..], rk, lo, hi)
    {
      hp := hp - 1;
      ghost var g, before := ptr[..], left;
      var stop;
      left, stop := Pass(ptr, block, quadrant, nblock, lo, hi, Increment(hp), d, left, b, rk);
      AgreeKept(b, g, ptr[..], lo, hi, hi, d);
      PaidOn(b, f, g, lo, hi, budget, before, left);
      RearrangedTransitive(f, g, ptr[..], lo, hi);
      if stop { return; }
    }
  }
}
