/** The sorter of one bucket: a three-way quicksort with an explicit stack, and the
    two-pass insertion sort it uses for short ranges.  Entries of fmap are ordered by their
    class number eclass[fmap[i]]; the class numbers themselves are never changed. */
module FallbackQSort {
  import opened Powers
  import opened Products
  import opened Rearrange
  import opened Partitioning

  /** Entry k of g came from the right of k, and is smaller than f[i]. */
  ghost predicate CameLeft(f: seq<nat>, g: seq<nat>, ec: seq<nat>, i: int, k: int)
    requires Indexed(f, ec) && 0 <= k < |f| - 1 && |g| == |f| && 0 <= i < |f|
  {
    g[k] == f[k + 1] && ec[f[k + 1]] < ec[f[i]]
  }

  /** Entry f[i] is in hand, the hole is at j - gap, and smaller entries have moved left. */
  ghost predicate Inserting(f: seq<nat>, g: seq<nat>, ec: seq<nat>, i: int, hi: int, gap: int, j: int)
    requires Indexed(f, ec)
  {
    && 0 <= i <= hi < |f| == |g| && gap > 0 && i + gap <= j && j - gap <= hi
    && Indexed(g, ec)
    && Rearranged(f, g[j - gap := f[i]], i, hi)
    && (forall k {:trigger g[k]} :: j - gap < k < |f| ==> g[k] == f[k])
    && (gap == 1 ==> forall k :: i <= k < j - 1 ==> CameLeft(f, g, ec, i, k))
  }

  lemma InsertingStart(f: seq<nat>, ec: seq<nat>, i: int, hi: int, gap: int)
    requires Indexed(f, ec) && 0 <= i <= hi < |f| && gap > 0
    ensures Inserting(f, f, ec, i, hi, gap, i + gap)
  {
    assert f[i := f[i]] == f;
  }

  /** Moving the hole of an insertion from h to j swaps two entries of the filled sequence. */
  lemma MoveHole(f: seq<nat>, g: seq<nat>, h: int, j: int, x: nat, lo: int, hi: int)
    requires |f| == |g| && 0 <= lo <= h <= hi < |f| && lo <= j <= hi && h != j
    requires Rearranged(f, g[h := x], lo, hi)
    ensures Rearranged(f, g[h := g[j]][j := x], lo, hi)
  {
    var filled := g[h := x];
    SwapRearranges(filled, h, j, lo, hi);
    assert filled[h := filled[j]][j := filled[h]] == g[h := g[j]][j := x];
    RearrangedTransitive(f, filled, g[h := g[j]][j := x], lo, hi);
  }

  lemma InsertingStep(f: seq<nat>, g: seq<nat>, ec: seq<nat>, i: int, hi: int, gap: int, j: int)
    requires Indexed(f, ec) && Inserting(f, g, ec, i, hi, gap, j)
    requires j <= hi && ec[f[i]] > ec[g[j]]
    ensures Inserting(f, g[j - gap := g[j]], ec, i, hi, gap, j + gap)
  {
    hide Rearranged;
    MoveHole(f, g, j - gap, j, f[i], i, hi);
    if gap == 1 {
      var h := g[j - 1 := g[j]];
      assert h[j - 1] == f[j];
      forall k | i <= k < j ensures CameLeft(f, h, ec, i, k) {
        if k < j - 1 { assert CameLeft(f, g, ec, i, k); }
      }
    }
  }

  lemma InsertingEnd(f: seq<nat>, g: seq<nat>, ec: seq<nat>, i: int, hi: int, gap: int, j: int)
    requires Indexed(f, ec) && Inserting(f, g, ec, i, hi, gap, j)
    requires j <= hi ==> ec[f[i]] <= ec[g[j]]
    ensures var h := g[j - gap := f[i]];
            && Rearranged(f, h, i, hi) && Indexed(h, ec)
            && (gap == 1 && SortedBetween(f, ec, i + 1, hi) ==> SortedBetween(h, ec, i, hi))
  {
    var h := g[j - gap := f[i]];
    assert forall k {:trigger h[k]} :: 0 <= k < |f| && k != j - gap ==> h[k] == g[k];
    if gap == 1 && SortedBetween(f, ec, i + 1, hi) {
      hide SortedBetween, Rearranged;
      forall k | i <= k < j - 1 ensures CameLeft(f, h, ec, i, k) { assert CameLeft(f, g, ec, i, k); }
      forall k {:trigger h[k]} | j <= k <= hi ensures h[k] == f[k] { assert h[k] == g[k]; }
      InsertedSorted(f, h, ec, i, j, hi);
    }
  }

  /** Moves entry i rightwards in steps of gap past the entries of smaller class. */
  method Insert(fmap: array<nat>, ec: seq<nat>, i: int, hi: int, gap: int)
    requires 0 <= i <= hi < fmap.Length && gap > 0 && Indexed(fmap[..], ec)
    modifies fmap
    ensures Indexed(fmap[..], ec) && Rearranged(old(fmap[..]), fmap[..], i, hi)
    ensures gap == 1 && SortedBetween(old(fmap[..]), ec, i + 1, hi) ==> SortedBetween(fmap[..], ec, i, hi)
  {
    hide Rearranged, SortedBetween;
    ghost var f := fmap[..];
    var tmp := fmap[i];
    var ecTmp := ec[tmp];
    var j := i + gap;
    InsertingStart(f, ec, i, hi, gap);
    while j <= hi && ecTmp > ec[fmap[j]]
      invariant Inserting(f, fmap[..], ec, i, hi, gap, j)
      decreases hi - j
    {
      InsertingStep(f, fmap[..], ec, i, hi, gap, j);
      fmap[j - gap] := fmap[j];
      j := j + gap;
    }
    InsertingEnd(f, fmap[..], ec, i, hi, gap, j);
    fmap[j - gap] := tmp;
  }

  lemma InsertedSorted(f: seq<nat>, g: seq<nat>, ec: seq<nat>, i: int, j: int, hi: int)
    requires Indexed(f, ec) && Indexed(g, ec) && |f| == |g| && 0 <= i < j <= hi + 1 <= |f|
    requires SortedBetween(f, ec, i + 1, hi)
    requires forall k :: i <= k < j - 1 ==> CameLeft(f, g, ec, i, k)
    requires g[j - 1] == f[i]
    requires forall k {:trigger g[k]} :: j <= k <= hi ==> g[k] == f[k]
    requires j <= hi ==> ec[f[i]] <= ec[f[j]]
    ensures SortedBetween(g, ec, i, hi)
  {
    forall x, y | i <= x < y <= hi
      ensures Key(g, ec, x) <= Key(g, ec, y)
    {
      if x < j - 1 { assert CameLeft(f, g, ec, i, x); }
      if y < j - 1 {
        assert CameLeft(f, g, ec, i, y);
        assert Key(f, ec, x + 1) <= Key(f, ec, y + 1);
      }
      if x < j - 1 && y >= j { assert Key(f, ec, x + 1) <= Key(f, ec, y); }
      if x == j - 1 && y > j { assert Key(f, ec, j) <= Key(f, ec, y); }
      if x >= j { assert Key(f, ec, x) <= Key(f, ec, y); }
    }
  }

  /** Insertion sort from the right with the given gap; a gap of 1 sorts. */
  method InsertionPass(fmap: array<nat>, ec: seq<nat>, lo: int, hi: int, gap: int)
    requires 0 <= lo && hi < fmap.Length && 0 < gap && Indexed(fmap[..], ec)
    modifies fmap
    ensures Rearranged(old(fmap[..]), fmap[..], lo, hi) && Indexed(fmap[..], ec)
    ensures gap == 1 ==> SortedBetween(fmap[..], ec, lo, hi)
  {
    hide SortedBetween;
    ghost var f := fmap[..];
    var i := hi - gap;
    OneIsSorted(f, ec, i + 1, hi, gap);
    while i >= lo
      invariant i <= hi - gap
      invariant i >= lo - 1 || i == hi - gap
      invariant Indexed(fmap[..], ec) && Rearranged(f, fmap[..], lo, hi)
      invariant gap == 1 && i >= lo - 1 ==> SortedBetween(fmap[..], ec, i + 1, hi)
    {
      Insert(fmap, ec, i, hi, gap);
      i := i - 1;
    }
    if gap == 1 && i < lo - 1 { ShortIsSorted(fmap[..], ec, lo, hi); }
  }

  lemma OneIsSorted(f: seq<nat>, ec: seq<nat>, lo: int, hi: int, gap: int)
    requires Indexed(f, ec) && hi < |f|
    ensures gap == 1 && lo >= 0 && lo == hi - gap + 1 ==> SortedBetween(f, ec, lo, hi)
  {
  }

  lemma ShortIsSorted(f: seq<nat>, ec: seq<nat>, lo: int, hi: int)
    requires Indexed(f, ec) && 0 <= lo && hi < |f| && hi <= lo
    ensures SortedBetween(f, ec, lo, hi)
  {
  }

  /** Sorts a short range: a rough pass with gap 4 when it is long enough, then gap 1. */
  method SimpleSort(fmap: array<nat>, ec: seq<nat>, lo: int, hi: int)
    requires 0 <= lo && hi < fmap.Length && Indexed(fmap[..], ec)
    modifies fmap
    ensures Rearranged(old(fmap[..]), fmap[..], lo, hi) && Indexed(fmap[..], ec)
    ensures SortedBetween(fmap[..], ec, lo, hi)
  {
    if lo == hi { return; }
    if hi - lo > 3 {
      InsertionPass(fmap, ec, lo, hi, 4);
    }
    InsertionPass(fmap, ec, lo, hi, 1);
  }

  // ---- the explicit stack ----

  /** A range of positions still to be sorted; hi == lo - 1 means none. */
  datatype Range = Range(lo: int, hi: int) {
    function Size(): int { hi - lo + 1 }
  }

  ghost predicate Together(st: seq<Range>, i: int, j: int) {
    exists k :: 0 <= k < |st| && st[k].lo <= i && j <= st[k].hi
  }

  /** The ranges lie inside lo..hi and do not touch one another. */
  ghost predicate Apart(st: seq<Range>, lo: int, hi: int) {
    && (forall k :: 0 <= k < |st| ==> lo <= st[k].lo <= st[k].hi + 1 <= hi + 1)
    && forall k, m :: 0 <= k < m < |st| ==> st[k].hi < st[m].lo || st[m].hi < st[k].lo
  }

  /** Any two entries out of order lie in one and the same pending range. */
  ghost predicate SortedBut(f: seq<nat>, ec: seq<nat>, lo: int, hi: int, st: seq<Range>)
    requires Indexed(f, ec)
  {
    && 0 <= lo && hi < |f|
    && forall i, j :: lo <= i < j <= hi ==> ec[f[i]] <= ec[f[j]] || Together(st, i, j)
  }

  lemma TogetherMore(st: seq<Range>, news: seq<Range>, i: int, j: int)
    ensures Together(st, i, j) ==> Together(st + news, i, j)
    ensures Together(news, i, j) ==> Together(st + news, i, j)
  {
    if Together(st, i, j) {
      var k :| 0 <= k < |st| && st[k].lo <= i && j <= st[k].hi;
      assert (st + news)[k] == st[k];
    }
    if Together(news, i, j) {
      var k :| 0 <= k < |news| && news[k].lo <= i && j <= news[k].hi;
      assert (st + news)[|st| + k] == news[k];
    }
  }

  lemma TogetherLast(st: seq<Range>, top: Range, i: int, j: int)
    requires Together(st + [top], i, j)
    ensures Together(st, i, j) || (top.lo <= i && j <= top.hi)
  {
    var k :| 0 <= k < |st + [top]| && (st + [top])[k].lo <= i && j <= (st + [top])[k].hi;
    if k < |st| { assert st[k] == (st + [top])[k]; }
  }

  /** A pair with one entry inside the popped range is in no other pending range. */
  lemma NotElsewhere(st: seq<Range>, top: Range, i: int, j: int, lo: int, hi: int)
    requires Apart(st + [top], lo, hi) && i <= j
    requires top.lo <= i <= top.hi || top.lo <= j <= top.hi
    ensures !Together(st, i, j)
  {
    forall k | 0 <= k < |st|
      ensures !(st[k].lo <= i && j <= st[k].hi)
    {
      assert (st + [top])[k] == st[k] && (st + [top])[|st|] == top;
    }
  }

  /** The key an entry outside the popped range is compared with is one that was already
      there: rearranging the range keeps order across its border. */
  lemma OrderAcross(f: seq<nat>, g: seq<nat>, ec: seq<nat>, lo: int, hi: int, st: seq<Range>, top: Range,
                    i: int, j: int)
    requires Indexed(f, ec) && Indexed(g, ec) && SortedBut(f, ec, lo, hi, st + [top])
    requires Apart(st + [top], lo, hi) && Rearranged(f, g, top.lo, top.hi) && lo <= i < j <= hi
    requires lo <= top.lo && top.hi <= hi
    requires !(top.lo <= i && j <= top.hi)
    ensures ec[g[i]] <= ec[g[j]] || Together(st, i, j)
  {
    var x, y := i, j;
    if top.lo <= i <= top.hi { x := RearrangedFrom(f, g, top.lo, top.hi, i); }
    if top.lo <= j <= top.hi { y := RearrangedFrom(f, g, top.lo, top.hi, j); }
    assert f[x] == g[i] && f[y] == g[j] && x < y;
    if ec[f[x]] > ec[f[y]] {
      TogetherLast(st, top, x, y);
      if (top.lo <= i <= top.hi) || (top.lo <= j <= top.hi) { NotElsewhere(st, top, x, y, lo, hi); }
    }
  }

  /** Replacing the popped range by ranges that cover what is still unsorted inside it. */
  lemma ReplaceTop(f: seq<nat>, g: seq<nat>, ec: seq<nat>, lo: int, hi: int, st: seq<Range>, top: Range,
                   news: seq<Range>)
    requires Indexed(f, ec) && Indexed(g, ec) && SortedBut(f, ec, lo, hi, st + [top])
    requires Apart(st + [top], lo, hi) && lo <= top.lo && top.hi <= hi
    requires Rearranged(f, g, top.lo, top.hi)
    requires SortedBut(g, ec, top.lo, top.hi, news)
    ensures SortedBut(g, ec, lo, hi, st + news)
  {
    forall i, j | lo <= i < j <= hi
      ensures ec[g[i]] <= ec[g[j]] || Together(st + news, i, j)
    {
      TogetherMore(st, news, i, j);
      if !(top.lo <= i && j <= top.hi) {
        OrderAcross(f, g, ec, lo, hi, st, top, i, j);
      }
    }
  }

  lemma ApartReplace(st: seq<Range>, top: Range, news: seq<Range>, lo: int, hi: int)
    requires Apart(st + [top], lo, hi) && Apart(news, top.lo, top.hi)
    ensures Apart(st + news, lo, hi)
  {
    var a, b := st + [top], st + news;
    assert a[|st|] == top;
    assert forall k :: 0 <= k < |st| ==> a[k] == st[k] == b[k];
    assert forall k :: |st| <= k < |b| ==> b[k] == news[k - |st|];
  }

  /** Each entry of the stack is at most half as long as the one below it was when pushed:
      entry k has at most total / 2^k positions. */
  ghost predicate Halving(st: seq<Range>, total: nat) {
    forall k :: 0 <= k < |st| ==> st[k].Size() * Pow2(k) <= total
  }

  lemma HalvingPush(st: seq<Range>, top: Range, big: Range, small: Range, total: nat)
    requires Halving(st + [top], total)
    requires small.Size() <= big.Size() && 0 <= small.Size() && big.Size() + small.Size() < top.Size()
    ensures Halving(st + [big, small], total)
    ensures top.Size() * Pow2(|st|) <= total
  {
    var a, b := st + [top], st + [big, small];
    assert a[|st|] == top;
    HalvingArithmetic(top.Size(), big.Size(), small.Size(), Pow2(|st|));
    forall k | 0 <= k < |b|
      ensures b[k].Size() * Pow2(k) <= total
    {
      if k < |st| {
        assert a[k] == b[k];
      } else if k == |st| {
        assert b[k] == big;
      } else {
        assert b[k] == small && Pow2(k) == 2 * Pow2(|st|);
      }
    }
  }

  lemma HalvingArithmetic(top: int, big: int, small: int, p: nat)
    requires 0 <= small <= big && big + small < top
    ensures big * p <= top * p && small * (2 * p) <= top * p
  {
    TimesUp(big, top, p);
    TimesUp(2 * small, top, p);
    Associate(small, 2, p);
  }

  lemma DepthBound(top: Range, depth: nat, total: nat)
    requires top.Size() * Pow2(depth) <= total <= 900000 && top.Size() > 10
    ensures depth <= 16
  {
    hide Pow2;
    SizeArithmetic(top.Size(), Pow2(depth), total);
    Pow2Values();
    if depth >= 17 { Pow2Monotone(17, depth); }
  }

  lemma SizeArithmetic(top: int, p: nat, total: nat)
    requires top > 10 && top * p <= total
    ensures 11 * p <= total
  {
    TimesUp(11, top, p);
  }

  lemma HalvingPop(st: seq<Range>, top: Range, total: nat)
    requires Halving(st + [top], total)
    ensures Halving(st, total)
  {
    assert forall k :: 0 <= k < |st| ==> (st + [top])[k] == st[k];
  }

  /** Work left: shrinks with every range popped. */
  ghost function Work(st: seq<Range>): (w: nat)
    requires forall k :: 0 <= k < |st| ==> st[k].Size() >= 0
  {
    if st == [] then 0 else Work(st[..|st| - 1]) + 2 * st[|st| - 1].Size() + 1
  }

  lemma WorkPush(st: seq<Range>, top: Range)
    requires top.Size() >= 0 && forall k :: 0 <= k < |st| ==> st[k].Size() >= 0
    ensures forall k :: 0 <= k < |st + [top]| ==> (st + [top])[k].Size() >= 0
    ensures Work(st + [top]) == Work(st) + 2 * top.Size() + 1
  {
    assert (st + [top])[..|st|] == st;
  }

  /** Some entry of the range has the pivot's key, so the parts together are shorter. */
  lemma SplitShrinks(f: seq<nat>, g: seq<nat>, ec: seq<nat>, lo: int, n: int, m: int, hi: int, k: int)
    requires Indexed(f, ec) && Indexed(g, ec) && 0 <= lo <= k <= hi < |f|
    requires Rearranged(f, g, lo, hi) && Split(g, ec, lo, n, m, hi, ec[f[k]])
    ensures lo <= n + 1 < m <= hi + 1
  {
    RearrangedSymmetric(f, g, lo, hi);
    var x := RearrangedFrom(g, f, lo, hi, k);
    assert ec[g[x]] == ec[f[k]];
  }

  lemma SplitSortedBut(g: seq<nat>, ec: seq<nat>, lo: int, n: int, m: int, hi: int, med: nat, bigFirst: bool)
    requires Indexed(g, ec) && Split(g, ec, lo, n, m, hi, med)
    ensures SortedBut(g, ec, lo, hi, if bigFirst then [Range(lo, n), Range(m, hi)] else [Range(m, hi), Range(lo, n)])
  {
    var st := if bigFirst then [Range(lo, n), Range(m, hi)] else [Range(m, hi), Range(lo, n)];
    forall i, j | lo <= i < j <= hi
      ensures ec[g[i]] <= ec[g[j]] || Together(st, i, j)
    {
      if j <= n { assert st[if bigFirst then 0 else 1].lo <= i && j <= st[if bigFirst then 0 else 1].hi; }
      if m <= i { assert st[if bigFirst then 1 else 0].lo <= i && j <= st[if bigFirst then 1 else 0].hi; }
    }
  }

  lemma SortedButNone(g: seq<nat>, ec: seq<nat>, lo: int, hi: int)
    requires Indexed(g, ec)
    ensures SortedBut(g, ec, lo, hi, []) <==> SortedBetween(g, ec, lo, hi)
  {
    if SortedBut(g, ec, lo, hi, []) {
      forall i, j | lo <= i < j <= hi ensures Key(g, ec, i) <= Key(g, ec, j) {
        assert ec[g[i]] <= ec[g[j]] || Together([], i, j);
      }
    }
    if SortedBetween(g, ec, lo, hi) {
      forall i, j | lo <= i < j <= hi ensures ec[g[i]] <= ec[g[j]] {
        assert Key(g, ec, i) <= Key(g, ec, j);
      }
    }
  }

  /** The working arrays of the sort describe the pending ranges. */
  ghost predicate Stacked(los: seq<int>, his: seq<int>, st: seq<Range>) {
    |st| <= |los| && |st| <= |his| && forall k :: 0 <= k < |st| ==> st[k] == Range(los[k], his[k])
  }

  /** What holds whenever the sort looks at its stack. */
  ghost predicate SortInvariant(f0: seq<nat>, f: seq<nat>, ec: seq<nat>, lo: int, hi: int, st: seq<Range>) {
    && 0 <= lo <= hi + 1 <= |f|
    && Indexed(f, ec) && Rearranged(f0, f, lo, hi)
    && Apart(st, lo, hi) && SortedBut(f, ec, lo, hi, st)
    && Halving(st, hi - lo + 1)
  }

  lemma InvariantStart(f: seq<nat>, ec: seq<nat>, lo: int, hi: int)
    requires 0 <= lo <= hi + 1 <= |f| && Indexed(f, ec)
    ensures SortInvariant(f, f, ec, lo, hi, [Range(lo, hi)])
  {
    var st := [Range(lo, hi)];
    forall i, j | lo <= i < j <= hi ensures Together(st, i, j) { assert st[0].lo <= i && j <= st[0].hi; }
    assert Pow2(0) == 1;
  }

  lemma InvariantEnd(f0: seq<nat>, f: seq<nat>, ec: seq<nat>, lo: int, hi: int)
    requires SortInvariant(f0, f, ec, lo, hi, [])
    ensures Indexed(f, ec) && SortedBetween(f, ec, lo, hi) && Rearranged(f0, f, lo, hi)
  {
    SortedButNone(f, ec, lo, hi);
  }

  lemma WidenRearranged(f: seq<nat>, g: seq<nat>, h: seq<nat>, lo: int, hi: int, a: int, b: int)
    requires Rearranged(f, g, lo, hi) && Rearranged(g, h, a, b) && lo <= a && b <= hi
    ensures Rearranged(f, h, lo, hi)
  {
  }

  /** The popped range lies within bounds. */
  lemma TopInside(f0: seq<nat>, f: seq<nat>, ec: seq<nat>, lo: int, hi: int, st: seq<Range>, top: Range)
    requires SortInvariant(f0, f, ec, lo, hi, st + [top])
    ensures 0 <= lo <= top.lo <= top.hi + 1 <= hi + 1 <= |f| && Indexed(f, ec)
    ensures top.Size() * Pow2(|st|) <= hi - lo + 1
  {
    assert (st + [top])[|st|] == top;
  }

  /** Sorting the popped range outright removes it. */
  lemma InvariantSorted(f0: seq<nat>, f: seq<nat>, g: seq<nat>, ec: seq<nat>, lo: int, hi: int,
                        st: seq<Range>, top: Range)
    requires SortInvariant(f0, f, ec, lo, hi, st + [top])
    requires Indexed(g, ec) && Rearranged(f, g, top.lo, top.hi) && SortedBetween(g, ec, top.lo, top.hi)
    ensures SortInvariant(f0, g, ec, lo, hi, st)
  {
    hide SortedBut, SortedBetween, Rearranged, Apart, Halving;
    TopInside(f0, f, ec, lo, hi, st, top);
    SortedButNone(g, ec, top.lo, top.hi);
    ReplaceTop(f, g, ec, lo, hi, st, top, []);
    ApartNone(top.lo, top.hi);
    ApartReplace(st, top, [], lo, hi);
    HalvingPop(st, top, hi - lo + 1);
    WidenRearranged(f0, f, g, lo, hi, top.lo, top.hi);
    assert st + [] == st;
  }

  lemma ApartNone(lo: int, hi: int)
    ensures Apart([], lo, hi)
  {
  }

  function Parts(lo: int, n: int, m: int, hi: int): (st: seq<Range>)
    ensures |st| == 2
  {
    if n - lo > hi - m then [Range(lo, n), Range(m, hi)] else [Range(m, hi), Range(lo, n)]
  }

  lemma PartsApart(lo: int, n: int, m: int, hi: int)
    requires lo <= n + 1 < m <= hi + 1
    ensures Apart(Parts(lo, n, m, hi), lo, hi)
  {
  }

  /** Splitting the popped range replaces it by its two parts, the longer one below. */
  lemma InvariantSplit(f0: seq<nat>, f: seq<nat>, g: seq<nat>, ec: seq<nat>, lo: int, hi: int,
                       st: seq<Range>, top: Range, n: int, m: int, med: nat)
    requires SortInvariant(f0, f, ec, lo, hi, st + [top])
    requires Indexed(g, ec) && Rearranged(f, g, top.lo, top.hi) && Split(g, ec, top.lo, n, m, top.hi, med)
    requires n + 1 < m
    ensures SortInvariant(f0, g, ec, lo, hi, st + Parts(top.lo, n, m, top.hi))
  {
    hide SortedBut, Rearranged, Apart, Halving, Stretch;
    var news := Parts(top.lo, n, m, top.hi);
    TopInside(f0, f, ec, lo, hi, st, top);
    SplitSortedBut(g, ec, top.lo, n, m, top.hi, med, n - top.lo > top.hi - m);
    ReplaceTop(f, g, ec, lo, hi, st, top, news);
    PartsApart(top.lo, n, m, top.hi);
    ApartReplace(st, top, news, lo, hi);
    HalvingPush(st, top, news[0], news[1], hi - lo + 1);
    assert news == [news[0], news[1]];
    WidenRearranged(f0, f, g, lo, hi, top.lo, top.hi);
  }

  const FALLBACK_QSORT_SMALL_THRESH := 10
  const FALLBACK_QSORT_STACK_SIZE := 100

  /** The pivot: the class of the first, middle or last entry, picked by a linear
      congruential sequence. */
  method ChoosePivot(fmap: array<nat>, ec: seq<nat>, lo: int, hi: int, r: nat)
    returns (med: nat, next: nat, ghost at: int)
    requires 0 <= lo <= hi < fmap.Length && Indexed(fmap[..], ec)
    ensures lo <= at <= hi && med == ec[fmap[at]]
  {
    next := ((r * 7621) + 1) % 32768;
    var r3 := next % 3;
    var k := if r3 == 0 then lo else if r3 == 1 then (lo + hi) / 2 else hi;
    med, at := ec[fmap[k]], k;
  }

  /** One range: sorted outright if short or all equal, else split. */
  method SortOrSplit(fmap: array<nat>, ec: seq<nat>, lo: int, hi: int, r: nat)
    returns (done: bool, n: int, m: int, next: nat, ghost med: nat)
    requires 0 <= lo <= hi + 1 <= fmap.Length && Indexed(fmap[..], ec)
    modifies fmap
    ensures Indexed(fmap[..], ec) && Rearranged(old(fmap[..]), fmap[..], lo, hi)
    ensures hi - lo < FALLBACK_QSORT_SMALL_THRESH ==> done
    ensures done ==> SortedBetween(fmap[..], ec, lo, hi)
    ensures !done ==> Split(fmap[..], ec, lo, n, m, hi, med) && lo <= n + 1 < m <= hi + 1
  {
    hide Rearranged, SortedBetween, Split, Stretch;
    n, m, next, med := lo, hi, r, 0;
    if hi - lo < FALLBACK_QSORT_SMALL_THRESH {
      SimpleSort(fmap, ec, lo, hi);
      done := true;
      return;
    }
    ghost var f := fmap[..];
    ghost var at;
    var pivot;
    pivot, next, at := ChoosePivot(fmap, ec, lo, hi, r);
    med := pivot;
    done, n, m := ThreeWay(fmap, ec, lo, hi, pivot);
    if done {
      EqualIsSorted(fmap[..], ec, lo, hi, med);
    } else {
      SplitShrinks(f, fmap[..], ec, lo, n, m, hi, at);
    }
  }

  lemma EqualIsSorted(f: seq<nat>, ec: seq<nat>, lo: int, hi: int, med: nat)
    requires Indexed(f, ec) && 0 <= lo <= hi < |f| && Stretch(f, ec, lo, hi + 1, med, 0)
    ensures SortedBetween(f, ec, lo, hi)
  {
  }

  /** Sorts positions loSt..hiSt by class.  The stack never comes near its limit of 100
      entries: for blocks of at most 900000 positions it holds at most 18. */
  method QSort3(fmap: array<nat>, ec: seq<nat>, loSt: int, hiSt: int)
    requires 0 <= loSt <= hiSt + 1 <= fmap.Length <= 900000 && Indexed(fmap[..], ec)
    modifies fmap
    ensures Indexed(fmap[..], ec) && SortedBetween(fmap[..], ec, loSt, hiSt)
    ensures Rearranged(old(fmap[..]), fmap[..], loSt, hiSt)
  {
    hide SortInvariant, Rearranged, SortedBetween, Split, Stretch, Stacked, Work;
    ghost var f0 := fmap[..];
    var stackLo := new int[FALLBACK_QSORT_STACK_SIZE];
    var stackHi := new int[FALLBACK_QSORT_STACK_SIZE];
    var r := 0;
    var sp := 1;
    stackLo[0], stackHi[0] := loSt, hiSt;
    ghost var st := [Range(loSt, hiSt)];
    StackedOne(stackLo[..], stackHi[..], loSt, hiSt);
    InvariantStart(f0, ec, loSt, hiSt);
    while sp > 0
      invariant sp == |st| <= 18
      invariant Stacked(stackLo[..], stackHi[..], st)
      invariant SortInvariant(f0, fmap[..], ec, loSt, hiSt, st)
      decreases WorkOf(f0, fmap[..], ec, loSt, hiSt, st)
    {
      assert sp < FALLBACK_QSORT_STACK_SIZE - 1;
      sp := sp - 1;
      var lo, hi := stackLo[sp], stackHi[sp];
      ghost var rest, top := st[..sp], Range(lo, hi);
      StackedPop(stackLo[..], stackHi[..], st);
      TopInside(f0, fmap[..], ec, loSt, hiSt, rest, top);
      ghost var f := fmap[..];
      var done, n, m, next, med := SortOrSplit(fmap, ec, lo, hi, r);
      r := next;
      if done {
        InvariantSorted(f0, f, fmap[..], ec, loSt, hiSt, rest, top);
        WorkSorted(f0, f, fmap[..], ec, loSt, hiSt, rest, top);
        st := rest;
        continue;
      }
      DepthBound(top, sp, hiSt - loSt + 1);
      InvariantSplit(f0, f, fmap[..], ec, loSt, hiSt, rest, top, n, m, med);
      WorkSplit(f0, f, fmap[..], ec, loSt, hiSt, rest, top, n, m);
      StackedPush(stackLo[..], stackHi[..], rest, Parts(lo, n, m, hi));
      if n - lo > hi - m {
        stackLo[sp], stackHi[sp] := lo, n;
        stackLo[sp + 1], stackHi[sp + 1] := m, hi;
      } else {
        stackLo[sp], stackHi[sp] := m, hi;
        stackLo[sp + 1], stackHi[sp + 1] := lo, n;
      }
      sp := sp + 2;
      st := rest + Parts(lo, n, m, hi);
    }
    assert st == [];
    InvariantEnd(f0, fmap[..], ec, loSt, hiSt);
  }

  lemma StackedOne(los: seq<int>, his: seq<int>, lo: int, hi: int)
    requires |los| == |his| == 100 && los[0] == lo && his[0] == hi
    ensures Stacked(los, his, [Range(lo, hi)])
  {
  }

  lemma StackedPop(los: seq<int>, his: seq<int>, st: seq<Range>)
    requires Stacked(los, his, st) && |st| > 0
    ensures var k := |st| - 1;
            k < |los| && k < |his| && st == st[..k] + [Range(los[k], his[k])] && Stacked(los, his, st[..k])
  {
  }

  lemma StackedPush(los: seq<int>, his: seq<int>, st: seq<Range>, news: seq<Range>)
    requires Stacked(los, his, st) && |news| == 2 && |st| + 2 <= |los| == |his|
    ensures Stacked(los[|st| := news[0].lo][|st| + 1 := news[1].lo],
                    his[|st| := news[0].hi][|st| + 1 := news[1].hi], st + news)
  {
  }

  ghost function WorkOf(f0: seq<nat>, f: seq<nat>, ec: seq<nat>, lo: int, hi: int, st: seq<Range>): nat
    requires SortInvariant(f0, f, ec, lo, hi, st)
  {
    Work(st)
  }

  lemma WorkSorted(f0: seq<nat>, f: seq<nat>, g: seq<nat>, ec: seq<nat>, lo: int, hi: int,
                   st: seq<Range>, top: Range)
    requires SortInvariant(f0, f, ec, lo, hi, st + [top]) && SortInvariant(f0, g, ec, lo, hi, st)
    ensures WorkOf(f0, g, ec, lo, hi, st) < WorkOf(f0, f, ec, lo, hi, st + [top])
  {
    hide SortedBut, Rearranged, Halving;
    TopInside(f0, f, ec, lo, hi, st, top);
    WorkPush(st, top);
  }

  lemma WorkSplit(f0: seq<nat>, f: seq<nat>, g: seq<nat>, ec: seq<nat>, lo: int, hi: int,
                  st: seq<Range>, top: Range, n: int, m: int)
    requires top.lo <= n + 1 < m <= top.hi + 1
    requires SortInvariant(f0, f, ec, lo, hi, st + [top])
    requires SortInvariant(f0, g, ec, lo, hi, st + Parts(top.lo, n, m, top.hi))
    ensures WorkOf(f0, g, ec, lo, hi, st + Parts(top.lo, n, m, top.hi)) < WorkOf(f0, f, ec, lo, hi, st + [top])
  {
    hide SortedBut, Rearranged, Halving;
    var news := Parts(top.lo, n, m, top.hi);
    forall k | 0 <= k < |st| ensures st[k].Size() >= 0 { assert (st + [top])[k] == st[k]; }
    WorkPush(st, top);
    WorkPush(st, news[0]);
    WorkPush(st + [news[0]], news[1]);
    assert st + news == (st + [news[0]]) + [news[1]];
  }
}
