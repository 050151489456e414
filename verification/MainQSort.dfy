/** The main sorter of one small bucket: a three-way quicksort on the character at a growing depth,
    with an explicit stack. */
module MainQSort {
  import opened Powers
  import opened Products
  import opened Rotations
  import opened RotationRanks
  import opened MainCompare
  import opened Rearrange
  import opened Partitioning
  import opened FallbackQSort
  import opened MainSimpleSort

  const MAIN_QSORT_SMALL_THRESH := 20
  const MAIN_QSORT_DEPTH_THRESH: nat := 14
  const MAIN_QSORT_STACK_SIZE := 100

  /** A range still to be sorted; its entries agree on their first d characters. */
  datatype Job = Job(lo: int, hi: int, d: nat) {
    function Size(): int { hi - lo + 1 }
    function Span(): Range { Range(lo, hi) }
  }

  ghost function Spans(st: seq<Job>): (r: seq<Range>)
    ensures |r| == |st|
  {
    seq(|st|, k requires 0 <= k < |st| => st[k].Span())
  }

  lemma SpansAdd(st: seq<Job>, news: seq<Job>)
    ensures Spans(st + news) == Spans(st) + Spans(news)
  {
  }

  /** The entries of every pending range agree as far as its depth says. */
  ghost predicate Deep(b: Block, f: seq<nat>, st: seq<Job>)
    requires |b| > 0
  {
    forall k :: 0 <= k < |st| ==> st[k].d <= 15 && Agree(b, f, st[k].lo, st[k].hi, st[k].d)
  }

  /** Two entries of the stack further up, a range has at most half the positions. */
  ghost predicate Halves(st: seq<Job>, total: nat) {
    forall k :: 0 <= k < |st| ==> 0 <= st[k].Size() && st[k].Size() * Pow2(k / 2) <= total
  }

  ghost predicate MainInvariant(f0: seq<nat>, f: seq<nat>, b: Block, rk: seq<nat>, lo: int, hi: int, st: seq<Job>)
    requires |b| > 0
  {
    && 0 <= lo <= hi + 1 <= |f|
    && Indexed(f, rk) && Rearranged(f0, f, lo, hi)
    && Apart(Spans(st), lo, hi) && SortedBut(f, rk, lo, hi, Spans(st))
    && Halves(st, hi - lo + 1) && Deep(b, f, st)
  }

  lemma MainStart(f: seq<nat>, b: Block, rk: seq<nat>, lo: int, hi: int, d: nat)
    requires |b| > 0 && 0 <= lo <= hi + 1 <= |f| && Indexed(f, rk) && d <= 15 && Agree(b, f, lo, hi, d)
    ensures MainInvariant(f, f, b, rk, lo, hi, [Job(lo, hi, d)])
  {
    var st := [Job(lo, hi, d)];
    hide Halving, Agree;
    InvariantStart(f, rk, lo, hi);
    assert Spans(st) == [Range(lo, hi)];
    assert Pow2(0 / 2) == 1;
  }

  lemma MainEnd(f0: seq<nat>, f: seq<nat>, b: Block, rk: seq<nat>, lo: int, hi: int)
    requires |b| > 0 && MainInvariant(f0, f, b, rk, lo, hi, [])
    ensures Indexed(f, rk) && SortedBetween(f, rk, lo, hi) && Rearranged(f0, f, lo, hi)
  {
    assert Spans([]) == [];
    SortedButNone(f, rk, lo, hi);
  }

  /** The popped range lies within bounds. */
  lemma JobInside(f0: seq<nat>, f: seq<nat>, b: Block, rk: seq<nat>, lo: int, hi: int, st: seq<Job>, top: Job)
    requires |b| > 0 && MainInvariant(f0, f, b, rk, lo, hi, st + [top])
    ensures 0 <= lo <= top.lo <= top.hi + 1 <= hi + 1 <= |f| && Indexed(f, rk)
    ensures top.Size() * Pow2(|st| / 2) <= hi - lo + 1
    ensures top.d <= 15 && Agree(b, f, top.lo, top.hi, top.d)
  {
    hide Agree;
    assert (st + [top])[|st|] == top;
    assert Spans(st + [top])[|st|] == top.Span();
  }

  /** Rearranging the popped range leaves the others as they were. */
  lemma DeepKept(b: Block, f: seq<nat>, g: seq<nat>, lo: int, hi: int, st: seq<Job>, top: Job)
    requires |b| > 0 && Deep(b, f, st + [top]) && Apart(Spans(st + [top]), lo, hi) && Rearranged(f, g, top.lo, top.hi)
    ensures Deep(b, g, st)
  {
    forall k | 0 <= k < |st|
      ensures st[k].d <= 15 && Agree(b, g, st[k].lo, st[k].hi, st[k].d)
    {
      assert (st + [top])[k] == st[k] && (st + [top])[|st|] == top;
      assert Spans(st + [top])[k] == st[k].Span() && Spans(st + [top])[|st|] == top.Span();
    }
  }

  lemma DeepMore(b: Block, f: seq<nat>, st: seq<Job>, news: seq<Job>)
    requires |b| > 0 && Deep(b, f, st) && Deep(b, f, news)
    ensures Deep(b, f, st + news)
  {
    hide Agree;
    forall k | 0 <= k < |st + news|
      ensures (st + news)[k].d <= 15 && Agree(b, f, (st + news)[k].lo, (st + news)[k].hi, (st + news)[k].d)
    {
      if k >= |st| { assert (st + news)[k] == news[k - |st|]; }
    }
  }

  /** What takes the place of the popped range. */
  ghost predicate Replaces(b: Block, f: seq<nat>, g: seq<nat>, rk: seq<nat>, top: Job, news: seq<Job>)
    requires |b| > 0 && Indexed(g, rk)
  {
    && Rearranged(f, g, top.lo, top.hi)
    && Apart(Spans(news), top.lo, top.hi) && SortedBut(g, rk, top.lo, top.hi, Spans(news)) && Deep(b, g, news)
  }

  lemma MainReplace(f0: seq<nat>, f: seq<nat>, g: seq<nat>, b: Block, rk: seq<nat>, lo: int, hi: int, st: seq<Job>,
                    top: Job, news: seq<Job>)
    requires |b| > 0 && MainInvariant(f0, f, b, rk, lo, hi, st + [top])
    requires Indexed(g, rk) && Replaces(b, f, g, rk, top, news) && Halves(st + news, hi - lo + 1)
    ensures MainInvariant(f0, g, b, rk, lo, hi, st + news)
  {
    hide SortedBut, Rearranged, Apart, Halves, Deep, Agree;
    JobInside(f0, f, b, rk, lo, hi, st, top);
    SpansAdd(st, [top]);
    assert Spans([top]) == [top.Span()];
    SpansAdd(st, news);
    ReplaceTop(f, g, rk, lo, hi, Spans(st), top.Span(), Spans(news));
    ApartReplace(Spans(st), top.Span(), Spans(news), lo, hi);
    DeepKept(b, f, g, lo, hi, st, top);
    DeepMore(b, g, st, news);
    WidenRearranged(f0, f, g, lo, hi, top.lo, top.hi);
  }

  lemma HalvesPop(st: seq<Job>, top: Job, total: nat)
    requires Halves(st + [top], total)
    ensures Halves(st, total)
  {
    assert forall k :: 0 <= k < |st| ==> (st + [top])[k] == st[k];
  }

  lemma HalfArithmetic(top: int, big: int, mid: int, small: int, p: nat)
    requires 0 <= small <= mid <= big && big + mid + small <= top
    ensures big * p <= top * p && mid * (2 * p) <= top * p && mid * p <= top * p && small * (2 * p) <= top * p
  {
    TimesUp(big, top, p);
    TimesUp(mid, top, p);
    TimesUp(2 * mid, top, p);
    TimesUp(2 * small, top, p);
    Associate(mid, 2, p);
    Associate(small, 2, p);
  }

  /** Pushing three parts, the longest first. */
  lemma HalvesPush(st: seq<Job>, top: Job, big: Job, mid: Job, small: Job, total: nat)
    requires Halves(st + [top], total)
    requires 0 <= small.Size() <= mid.Size() <= big.Size() && big.Size() + mid.Size() + small.Size() <= top.Size()
    ensures Halves(st + [big, mid, small], total)
  {
    var a, c, n := st + [top], st + [big, mid, small], |st|;
    assert a[n] == top;
    HalfArithmetic(top.Size(), big.Size(), mid.Size(), small.Size(), Pow2(n / 2));
    forall k | 0 <= k < |c|
      ensures 0 <= c[k].Size() && c[k].Size() * Pow2(k / 2) <= total
    {
      if k < n {
        assert a[k] == c[k];
      } else if k == n {
        assert c[k] == big;
      } else if k == n + 1 {
        assert c[k] == mid && (k / 2 == n / 2 || k / 2 == n / 2 + 1);
      } else {
        assert c[k] == small && k / 2 == n / 2 + 1;
      }
    }
  }

  lemma HalvesSame(st: seq<Job>, top: Job, next: Job, total: nat)
    requires Halves(st + [top], total) && next.Size() == top.Size()
    ensures Halves(st + [next], total)
  {
    var a, c := st + [top], st + [next];
    assert a[|st|] == top;
    forall k | 0 <= k < |c|
      ensures 0 <= c[k].Size() && c[k].Size() * Pow2(k / 2) <= total
    {
      assert k < |st| ==> a[k] == c[k];
    }
  }

  /** A range worth splitting is never more than 33 entries up the stack. */
  lemma StackBound(top: Job, depth: nat, total: nat)
    requires top.Size() * Pow2(depth / 2) <= total <= 900000 && top.Size() > 20
    ensures depth <= 33
  {
    hide Pow2;
    SizeArithmetic(top.Size(), Pow2(depth / 2), total);
    Pow2Values();
    if depth / 2 >= 17 { Pow2Monotone(17, depth / 2); }
  }

  // ---- splitting by the character at depth d ----

  /** keys are the characters d places on from every position. */
  ghost predicate KeysAt(b: Block, keys: seq<nat>, d: nat)
    requires |b| > 0
  {
    |keys| == |b| && forall x: nat :: x < |b| ==> keys[x] == Char(b, x + d)
  }

  lemma KeysOrder(b: Block, rk: seq<nat>, keys: seq<nat>, d: nat, x: nat, y: nat)
    requires Ranks(b, rk) && KeysAt(b, keys, d) && x < |b| && y < |b| && Cmp(b, x, y, d) == 0
    ensures keys[x] < keys[y] ==> rk[x] <= rk[y]
    ensures keys[x] == keys[y] ==> Cmp(b, x, y, d + 1) == 0
  {
    CmpSplit(b, x, y, d, 1);
    assert Cmp(b, x + d + 1, y + d + 1, 0) == 0;
    if keys[x] < keys[y] { Decided(b, x, y, d + 1); }
  }

  /** Less, equal and greater parts, in any order on the stack. */
  ghost predicate ThreeParts(lo: int, n: int, m: int, hi: int, d: nat, parts: seq<Job>) {
    && |parts| == 3
    && Job(lo, n, d) in parts && Job(m, hi, d) in parts && Job(n + 1, m - 1, d + 1) in parts
    && Apart(Spans(parts), lo, hi)
  }

  lemma InSpans(parts: seq<Job>, r: Job, i: int, j: int)
    requires r in parts && r.lo <= i && j <= r.hi
    ensures Together(Spans(parts), i, j)
  {
    var k :| 0 <= k < |parts| && parts[k] == r;
    assert Spans(parts)[k] == r.Span();
  }

  /** Two entries of a split range are in order, or in the same part. */
  lemma SplitOrder(b: Block, rk: seq<nat>, keys: seq<nat>, g: seq<nat>, lo: int, n: int, m: int, hi: int, med: nat,
                   d: nat, i: int, j: int)
    requires Ranks(b, rk) && KeysAt(b, keys, d) && Indexed(g, keys) && Split(g, keys, lo, n, m, hi, med)
    requires Agree(b, g, lo, hi, d) && lo <= i < j <= hi
    ensures rk[g[i]] <= rk[g[j]] || j <= n || m <= i || (n < i && j < m)
  {
    KeysOrder(b, rk, keys, d, g[i], g[j]);
  }

  lemma EqualDeeper(b: Block, keys: seq<nat>, rk: seq<nat>, g: seq<nat>, lo: int, hi: int, a: int, c: int, d: nat,
                    med: nat)
    requires Ranks(b, rk) && KeysAt(b, keys, d) && Indexed(g, keys) && 0 <= lo <= a <= c + 1 <= hi + 1 <= |g|
    requires Stretch(g, keys, a, c + 1, med, 0) && Agree(b, g, lo, hi, d)
    ensures Agree(b, g, a, c, d + 1)
  {
    forall i, j | a <= i <= c && a <= j <= c
      ensures Cmp(b, g[i], g[j], d + 1) == 0
    {
      KeysOrder(b, rk, keys, d, g[i], g[j]);
    }
  }

  lemma PartAgrees(b: Block, g: seq<nat>, lo: int, hi: int, a: int, c: int, d: nat)
    requires |b| > 0 && Agree(b, g, lo, hi, d) && 0 <= lo <= a && c <= hi < |g|
    ensures Agree(b, g, a, c, d)
  {
  }

  lemma PartsReplace(b: Block, rk: seq<nat>, keys: seq<nat>, f: seq<nat>, g: seq<nat>, top: Job, n: int, m: int,
                     med: nat, parts: seq<Job>)
    requires |b| > 0 && Ranks(b, rk) && KeysAt(b, keys, top.d) && Indexed(g, keys) && Indexed(g, rk) && top.d <= 14
    requires Split(g, keys, top.lo, n, m, top.hi, med) && Rearranged(f, g, top.lo, top.hi)
    requires Agree(b, g, top.lo, top.hi, top.d) && ThreeParts(top.lo, n, m, top.hi, top.d, parts)
    requires forall k :: 0 <= k < 3 ==>
               parts[k] in {Job(top.lo, n, top.d), Job(m, top.hi, top.d), Job(n + 1, m - 1, top.d + 1)}
    ensures Replaces(b, f, g, rk, top, parts)
  {
    hide Rearranged, Ranks, KeysAt, Agree, Stretch, Together;
    forall i, j | top.lo <= i < j <= top.hi
      ensures rk[g[i]] <= rk[g[j]] || Together(Spans(parts), i, j)
    {
      SplitOrder(b, rk, keys, g, top.lo, n, m, top.hi, med, top.d, i, j);
      if j <= n { InSpans(parts, Job(top.lo, n, top.d), i, j); }
      if m <= i { InSpans(parts, Job(m, top.hi, top.d), i, j); }
      if n < i && j < m { InSpans(parts, Job(n + 1, m - 1, top.d + 1), i, j); }
    }
    EqualDeeper(b, keys, rk, g, top.lo, top.hi, n + 1, m - 1, top.d, med);
    PartAgrees(b, g, top.lo, top.hi, top.lo, n, top.d);
    PartAgrees(b, g, top.lo, top.hi, m, top.hi, top.d);
  }

  // ---- work left ----

  function Weight(j: Job): int
  {
    4 * j.Size() * (16 - j.d) + 1
  }

  lemma WeightPositive(j: Job)
    requires j.Size() >= 0 && j.d <= 15
    ensures Weight(j) >= 1
  {
    TimesUp(0, j.Size(), 16 - j.d);
    Associate(4, j.Size(), 16 - j.d);
  }

  ghost function Work(st: seq<Job>): (w: nat)
    requires forall k :: 0 <= k < |st| ==> 0 <= st[k].Size() && st[k].d <= 15
  {
    if st == [] then 0 else
    var last := st[|st| - 1];
    WeightPositive(last);
    Work(st[..|st| - 1]) + Weight(last)
  }

  lemma WorkPush(st: seq<Job>, top: Job)
    requires 0 <= top.Size() && top.d <= 15 && forall k :: 0 <= k < |st| ==> 0 <= st[k].Size() && st[k].d <= 15
    ensures forall k :: 0 <= k < |st + [top]| ==> 0 <= (st + [top])[k].Size() && (st + [top])[k].d <= 15
    ensures Work(st + [top]) == Work(st) + Weight(top)
  {
    assert (st + [top])[..|st|] == st;
  }

  /** Three parts, one of them not empty and one deeper, weigh less together. */
  lemma PartsLighter(a: int, c: int, e: int, d: nat)
    requires 0 <= a && 0 <= c && 1 <= e && d <= 14
    ensures (4 * a * (16 - d) + 1) + (4 * c * (16 - d) + 1) + (4 * e * (16 - (d + 1)) + 1) <
              4 * (a + c + e) * (16 - d) + 1
  {
    var x := 16 - d;
    assert 4 * (a + c + e) * x == 4 * a * x + 4 * c * x + 4 * e * x;
    assert 4 * e * (x - 1) == 4 * e * x - 4 * e;
  }

  // ---- the sort ----

  ghost predicate SameThree(parts: seq<Job>, a: Job, c: Job, e: Job) {
    || parts == [a, c, e] || parts == [a, e, c] || parts == [c, a, e]
    || parts == [c, e, a] || parts == [e, a, c] || parts == [e, c, a]
  }

  /** Three jobs with the longest first: exchanges at the top, below, and at the top again. */
  function BySize(a: Job, c: Job, e: Job): (parts: seq<Job>)
    ensures |parts| == 3 && parts[0].Size() >= parts[1].Size() >= parts[2].Size()
    ensures SameThree(parts, a, c, e)
  {
    var x0 := if a.Size() < c.Size() then c else a;
    var x1 := if a.Size() < c.Size() then a else c;
    var y1 := if x1.Size() < e.Size() then e else x1;
    var y2 := if x1.Size() < e.Size() then x1 else e;
    if x0.Size() < y1.Size() then [y1, x0, y2] else [x0, y1, y2]
  }

  lemma SameThreeSizes(lo: int, n: int, m: int, hi: int, d: nat, parts: seq<Job>)
    requires lo <= n + 1 < m <= hi + 1
    requires SameThree(parts, Job(lo, n, d), Job(m, hi, d), Job(n + 1, m - 1, d + 1))
    ensures |parts| == 3 && forall k :: 0 <= k < 3 ==>
              parts[k] in {Job(lo, n, d), Job(m, hi, d), Job(n + 1, m - 1, d + 1)}
    ensures parts[0].Size() + parts[1].Size() + parts[2].Size() == hi - lo + 1
    ensures parts[0].Size() >= 0 && parts[1].Size() >= 0 && parts[2].Size() >= 0
  {
  }

  lemma SameThreeApart(lo: int, n: int, m: int, hi: int, d: nat, parts: seq<Job>)
    requires lo <= n + 1 < m <= hi + 1
    requires SameThree(parts, Job(lo, n, d), Job(m, hi, d), Job(n + 1, m - 1, d + 1))
    ensures ThreeParts(lo, n, m, hi, d, parts)
  {
    var x, y, z := Range(lo, n), Range(m, hi), Range(n + 1, m - 1);
    var r := Spans(parts);
    assert r == [x, y, z] || r == [x, z, y] || r == [y, x, z] || r == [y, z, x] || r == [z, x, y] || r == [z, y, x];
    ThreeApart(r, lo, n, m, hi);
  }

  lemma ThreeApart(r: seq<Range>, lo: int, n: int, m: int, hi: int)
    requires lo <= n + 1 < m <= hi + 1
    requires var x, y, z := Range(lo, n), Range(m, hi), Range(n + 1, m - 1);
             r == [x, y, z] || r == [x, z, y] || r == [y, x, z] || r == [y, z, x] || r == [z, x, y] || r == [z, y, x]
    ensures Apart(r, lo, hi)
  {
  }

  /** The middle one of three characters. */
  function Med3(a: nat, c: nat, e: nat): (r: nat)
    ensures r in {a, c, e}
    ensures (a <= r && c <= r) || (a <= r && e <= r) || (c <= r && e <= r)
    ensures (a >= r && c >= r) || (a >= r && e >= r) || (c >= r && e >= r)
  {
    var (x, y) := if a > c then (c, a) else (a, c);
    if y > e then (if x > e then x else e) else y
  }

  datatype Outcome = Sorted | AllSame | Parted(n: int, m: int)

  /** What became of the popped range. */
  ghost predicate Became(b: Block, f: seq<nat>, g: seq<nat>, rk: seq<nat>, top: Job, o: Outcome)
    requires |b| > 0
  {
    && Indexed(g, rk)
    && match o
       case Sorted => Replaces(b, f, g, rk, top, [])
       case AllSame => top.d <= 14 && top.Size() > 20 && Replaces(b, f, g, rk, top, [Job(top.lo, top.hi, top.d + 1)])
       case Parted(n, m) => top.d <= 14 && top.Size() > 20 && top.lo <= n + 1 < m <= top.hi + 1
                            && Replaces(b, f, g, rk, top, BySize(Job(top.lo, n, top.d), Job(m, top.hi, top.d),
                                                                 Job(n + 1, m - 1, top.d + 1)))
  }

  lemma SortedReplaces(b: Block, f: seq<nat>, g: seq<nat>, rk: seq<nat>, top: Job)
    requires |b| > 0 && Indexed(g, rk) && Rearranged(f, g, top.lo, top.hi) && SortedBetween(g, rk, top.lo, top.hi)
    ensures Became(b, f, g, rk, top, Sorted)
  {
    SortedButNone(g, rk, top.lo, top.hi);
    assert Spans([]) == [];
  }

  lemma SameReplaces(b: Block, keys: seq<nat>, f: seq<nat>, g: seq<nat>, rk: seq<nat>, top: Job, med: nat)
    requires Ranks(b, rk) && KeysAt(b, keys, top.d) && Indexed(g, rk) && Indexed(g, keys)
             && Rearranged(f, g, top.lo, top.hi)
    requires top.d <= 14 && top.Size() > 20
    requires 0 <= top.lo && top.hi < |g| && Stretch(g, keys, top.lo, top.hi + 1, med, 0)
             && Agree(b, g, top.lo, top.hi, top.d)
    ensures Became(b, f, g, rk, top, AllSame)
  {
    var next := Job(top.lo, top.hi, top.d + 1);
    EqualDeeper(b, keys, rk, g, top.lo, top.hi, top.lo, top.hi, top.d, med);
    hide Agree, Stretch, KeysAt, Ranks, Rearranged;
    assert Spans([next]) == [top.Span()];
    forall i, j | top.lo <= i < j <= top.hi ensures Together(Spans([next]), i, j) { InSpans([next], next, i, j); }
  }

  lemma PartedReplaces(b: Block, keys: seq<nat>, f: seq<nat>, g: seq<nat>, rk: seq<nat>, top: Job, n: int, m: int,
                       med: nat)
    requires |b| > 0 && Ranks(b, rk) && KeysAt(b, keys, top.d) && Indexed(g, rk) && Indexed(g, keys)
             && Rearranged(f, g, top.lo, top.hi)
    requires Split(g, keys, top.lo, n, m, top.hi, med) && top.lo <= n + 1 < m <= top.hi + 1
             && Agree(b, g, top.lo, top.hi, top.d)
    requires top.d <= 14 && top.Size() > 20
    ensures Became(b, f, g, rk, top, Parted(n, m))
  {
    hide Agree, Split, KeysAt, Ranks, Rearranged, Replaces, SameThree, ThreeParts;
    var parts := BySize(Job(top.lo, n, top.d), Job(m, top.hi, top.d), Job(n + 1, m - 1, top.d + 1));
    SameThreeSizes(top.lo, n, m, top.hi, top.d, parts);
    SameThreeApart(top.lo, n, m, top.hi, top.d, parts);
    PartsReplace(b, rk, keys, f, g, top, n, m, med, parts);
  }

  lemma KeysAreBytes(b: Block, blk: seq<byte>, d: nat)
    requires Overshot(b, blk) && d <= 15
    ensures d + |b| <= |blk| && KeysAt(b, blk[d..d + |b|], d)
  {
  }

  /** One range: sorted by Shell's sort if it is short or deep, else split at its pivot character. */
  method SortOrPart(ptr: array<nat>, block: array<byte>, quadrant: array<nat>, nblock: nat, lo: int, hi: int, d: nat,
                    budget: int,
                    ghost b: Block, ghost rk: seq<nat>)
    returns (o: Outcome, left: int)
    requires ptr != quadrant && ptr as object != block && nblock == |b| == |rk| > 0 && d <= 15
    requires Comparable(b, rk, block[..], quadrant[..]) && Indexed(ptr[..], rk)
    requires 0 <= lo <= hi + 1 <= ptr.Length <= 900000 && Agree(b, ptr[..], lo, hi, d)
    modifies ptr
    ensures Indexed(ptr[..], rk) && Rearranged(old(ptr[..]), ptr[..], lo, hi)
    ensures Paid(b, old(ptr[..]), budget, left)
    ensures left >= 0 || !o.Sorted? ==> Became(b, old(ptr[..]), ptr[..], rk, Job(lo, hi, d), o)
  {
    ghost var f, top := ptr[..], Job(lo, hi, d);
    hide Agree, Comparable, Rearranged, SortedBetween, Became, Split, Stretch, KeysAt, Paid;
    o, left := Sorted, budget;
    PaidNothing(b, f, budget);
    if hi - lo < MAIN_QSORT_SMALL_THRESH || d > MAIN_QSORT_DEPTH_THRESH {
      left := MainSimpleSort.SimpleSort(ptr, block, quadrant, nblock, lo, hi, d, budget, b, rk);
      if left >= 0 { SortedReplaces(b, f, ptr[..], rk, top); }
      return;
    }
    var keys := CharsAt(block, nblock, d, b, rk, quadrant);
    var med := Med3(keys[ptr[lo]], keys[ptr[hi]], keys[ptr[(lo + hi) / 2]]);
    ghost var at := if med == keys[ptr[lo]] then lo else if med == keys[ptr[hi]] then hi else (lo + hi) / 2;
    var same, n, m := ThreeWay(ptr, keys, lo, hi, med);
    RearrangedIndexed(f, ptr[..], lo, hi, rk);
    AgreeKept(b, f, ptr[..], lo, hi, hi, d);
    if same {
      o := AllSame;
      SameReplaces(b, keys, f, ptr[..], rk, top, med);
    } else {
      o := Parted(n, m);
      SplitShrinks(f, ptr[..], keys, lo, n, m, hi, at);
      PartedReplaces(b, keys, f, ptr[..], rk, top, n, m, med);
    }
  }

  /** The characters d places on from every position. */
  method CharsAt(block: array<byte>, nblock: nat, d: nat, ghost b: Block, ghost rk: seq<nat>,
                 ghost quadrant: array<nat>)
    returns (keys: seq<nat>)
    requires Comparable(b, rk, block[..], quadrant[..]) && nblock == |b| == |rk| > 0 && d <= 15
    ensures |keys| == |b| && KeysAt(b, keys, d)
  {
    KeysAreBytes(b, block[..], d);
    keys := block[..][d..d + nblock];
  }

  // ---- the stack ----

  /** The working arrays describe the pending ranges. */
  ghost predicate Jobs(los: seq<int>, his: seq<int>, ds: seq<nat>, st: seq<Job>) {
    |st| <= |los| == |his| == |ds| && forall k :: 0 <= k < |st| ==> st[k] == Job(los[k], his[k], ds[k])
  }

  lemma JobsPop(los: seq<int>, his: seq<int>, ds: seq<nat>, st: seq<Job>)
    requires Jobs(los, his, ds, st) && |st| > 0
    ensures var k := |st| - 1;
            k < |los| == |his| == |ds| && st == st[..k] + [Job(los[k], his[k], ds[k])] && Jobs(los, his, ds, st[..k])
  {
  }

  class JobStack {
    const los: array<int>
    const his: array<int>
    const ds: array<nat>
    var sp: nat
    ghost var st: seq<Job>

    ghost predicate Valid()
      reads this, los, his, ds
    {
      && los != his && los as object != ds && his as object != ds && los.Length == MAIN_QSORT_STACK_SIZE
      && sp == |st| && Jobs(los[..], his[..], ds[..], st)
    }

    constructor ()
      ensures Valid() && st == [] && fresh(los) && fresh(his) && fresh(ds)
    {
      los, his, ds := new int[MAIN_QSORT_STACK_SIZE], new int[MAIN_QSORT_STACK_SIZE], new nat[MAIN_QSORT_STACK_SIZE];
      sp, st := 0, [];
    }

    method Push(j: Job)
      requires Valid() && sp < MAIN_QSORT_STACK_SIZE
      modifies this, los, his, ds
      ensures Valid() && st == old(st) + [j]
    {
      los[sp], his[sp], ds[sp] := j.lo, j.hi, j.d;
      sp, st := sp + 1, st + [j];
    }

    method Pop() returns (j: Job)
      requires Valid() && sp > 0
      modifies this
      ensures Valid() && old(st) == st + [j]
    {
      JobsPop(los[..], his[..], ds[..], st);
      sp, st := sp - 1, st[..sp - 1];
      j := Job(los[sp], his[sp], ds[sp]);
    }
  }

  // ---- what each outcome does to the invariant and the work ----

  /** The jobs that take the place of the popped one. */
  function NewJobs(top: Job, o: Outcome): seq<Job> {
    match o
    case Sorted => []
    case AllSame => [Job(top.lo, top.hi, top.d + 1)]
    case Parted(n, m) => BySize(Job(top.lo, n, top.d), Job(m, top.hi, top.d), Job(n + 1, m - 1, top.d + 1))
  }

  lemma NewHalves(b: Block, f: seq<nat>, g: seq<nat>, rk: seq<nat>, st: seq<Job>, top: Job, o: Outcome, total: nat)
    requires |b| > 0 && Became(b, f, g, rk, top, o) && Halves(st + [top], total)
    ensures Halves(st + NewJobs(top, o), total)
  {
    hide Replaces, SameThree;
    match o {
      case Sorted =>
        HalvesPop(st, top, total);
        assert st + [] == st;
      case AllSame =>
        HalvesSame(st, top, Job(top.lo, top.hi, top.d + 1), total);
      case Parted(n, m) =>
        var parts := NewJobs(top, o);
        SameThreeSizes(top.lo, n, m, top.hi, top.d, parts);
        HalvesPush(st, top, parts[0], parts[1], parts[2], total);
        assert parts == [parts[0], parts[1], parts[2]];
    }
  }

  lemma NewInvariant(f0: seq<nat>, f: seq<nat>, g: seq<nat>, b: Block, rk: seq<nat>, lo: int, hi: int, st: seq<Job>,
                     top: Job, o: Outcome)
    requires |b| > 0 && MainInvariant(f0, f, b, rk, lo, hi, st + [top]) && Became(b, f, g, rk, top, o)
    ensures MainInvariant(f0, g, b, rk, lo, hi, st + NewJobs(top, o))
    ensures |st + NewJobs(top, o)| > |st| ==> |st| <= 33 || hi - lo + 1 > 900000
  {
    hide Replaces, SortedBut, Rearranged, Apart, Deep, Halves, BySize;
    NewHalves(b, f, g, rk, st, top, o, hi - lo + 1);
    MainReplace(f0, f, g, b, rk, lo, hi, st, top, NewJobs(top, o));
    JobInside(f0, f, b, rk, lo, hi, st, top);
    if !o.Sorted? && hi - lo + 1 <= 900000 { StackBound(top, |st|, hi - lo + 1); }
  }

  ghost function WorkOf(f0: seq<nat>, f: seq<nat>, b: Block, rk: seq<nat>, lo: int, hi: int, st: seq<Job>): nat
    requires |b| > 0 && MainInvariant(f0, f, b, rk, lo, hi, st)
  {
    Work(st)
  }

  lemma WorkThree(st: seq<Job>, top: Job, n: int, m: int, parts: seq<Job>)
    requires forall k :: 0 <= k < |st| ==> 0 <= st[k].Size() && st[k].d <= 15
    requires top.d <= 14 && top.lo <= n + 1 < m <= top.hi + 1
    requires SameThree(parts, Job(top.lo, n, top.d), Job(m, top.hi, top.d), Job(n + 1, m - 1, top.d + 1))
    ensures forall k :: 0 <= k < |st + parts| ==> 0 <= (st + parts)[k].Size() && (st + parts)[k].d <= 15
    ensures Work(st + parts) < Work(st) + Weight(top)
  {
    hide Work, Weight, SameThree;
    SameThreeSizes(top.lo, n, m, top.hi, top.d, parts);
    var x, y, z := parts[0], parts[1], parts[2];
    WorkPush(st, x);
    WorkPush(st + [x], y);
    WorkPush((st + [x]) + [y], z);
    assert parts == [x, y, z];
    assert st + parts == ((st + [x]) + [y]) + [z];
    WeighThree(top, n, m, parts);
  }

  lemma WeighThree(top: Job, n: int, m: int, parts: seq<Job>)
    requires top.d <= 14 && top.lo <= n + 1 < m <= top.hi + 1
    requires SameThree(parts, Job(top.lo, n, top.d), Job(m, top.hi, top.d), Job(n + 1, m - 1, top.d + 1))
    ensures Weight(parts[0]) + Weight(parts[1]) + Weight(parts[2]) < Weight(top)
  {
    var x, y, z := Job(top.lo, n, top.d), Job(m, top.hi, top.d), Job(n + 1, m - 1, top.d + 1);
    PartsLighter(x.Size(), y.Size(), z.Size(), top.d);
    assert x.Size() + y.Size() + z.Size() == top.Size();
    assert Weight(x) + Weight(y) + Weight(z) < Weight(top);
    hide Weight;
  }

  /** The work left shrinks with every range popped. */
  lemma WorkShrinks(f0: seq<nat>, f: seq<nat>, g: seq<nat>, b: Block, rk: seq<nat>, lo: int, hi: int, st: seq<Job>,
                    top: Job, o: Outcome)
    requires |b| > 0 && MainInvariant(f0, f, b, rk, lo, hi, st + [top]) && Became(b, f, g, rk, top, o)
    requires MainInvariant(f0, g, b, rk, lo, hi, st + NewJobs(top, o))
    ensures WorkOf(f0, g, b, rk, lo, hi, st + NewJobs(top, o)) < WorkOf(f0, f, b, rk, lo, hi, st + [top])
  {
    hide Replaces, SortedBut, Rearranged, Apart, Agree, BySize, Weight;
    JobInside(f0, f, b, rk, lo, hi, st, top);
    forall k | 0 <= k < |st| ensures 0 <= st[k].Size() && st[k].d <= 15 { assert (st + [top])[k] == st[k]; }
    WorkPush(st, top);
    WeightPositive(top);
    match o {
      case Sorted => assert st + [] == st;
      case AllSame =>
        WorkPush(st, Job(top.lo, top.hi, top.d + 1));
        DeeperLighter(top);
      case Parted(n, m) => WorkThree(st, top, n, m, NewJobs(top, o));
    }
  }

  lemma DeeperLighter(top: Job)
    requires top.Size() > 0
    ensures Weight(Job(top.lo, top.hi, top.d + 1)) < Weight(top)
  {
    var s := top.Size();
    assert 4 * s * (16 - (top.d + 1)) == 4 * s * (16 - top.d) - 4 * s;
  }

  /** Pushes what is left to do; the stack stays far from its limit. */
  method PushNew(stack: JobStack, top: Job, o: Outcome)
    requires stack.Valid() && (stack.sp <= 33 || o.Sorted?)
    modifies stack, stack.los, stack.his, stack.ds
    ensures stack.Valid() && stack.st == old(stack.st) + NewJobs(top, o)
  {
    hide BySize;
    match o {
      case Sorted =>
        assert stack.st + [] == stack.st;
      case AllSame =>
        stack.Push(Job(top.lo, top.hi, top.d + 1));
      case Parted(n, m) =>
        var next := BySize(Job(top.lo, n, top.d), Job(m, top.hi, top.d), Job(n + 1, m - 1, top.d + 1));
        ghost var st := stack.st;
        stack.Push(next[0]);
        stack.Push(next[1]);
        stack.Push(next[2]);
        assert next == [next[0], next[1], next[2]];
        assert stack.st == st + next;
    }
  }

  /** The popped range dealt with, as far as the pending work goes. */
  method Round(ptr: array<nat>, block: array<byte>, quadrant: array<nat>, nblock: nat, top: Job, budget: int,
               ghost loSt: int, ghost hiSt: int,
               ghost f0: seq<nat>, ghost rest: seq<Job>, ghost b: Block, ghost rk: seq<nat>)
    returns (o: Outcome, left: int)
    requires ptr != quadrant && ptr as object != block && nblock == |b| == |rk| > 0
    requires Comparable(b, rk, block[..], quadrant[..]) && ptr.Length <= 900000 && hiSt < ptr.Length
    requires MainInvariant(f0, ptr[..], b, rk, loSt, hiSt, rest + [top])
    modifies ptr
    ensures Paid(b, f0, budget, left) && Indexed(ptr[..], rk)
    ensures left < 0 && o.Sorted? ==> Rearranged(f0, ptr[..], loSt, hiSt)
    ensures left >= 0 || !o.Sorted? ==>
              MainInvariant(f0, ptr[..], b, rk, loSt, hiSt, rest + NewJobs(top, o)) && (o.Sorted? || |rest| <= 33)
    ensures left >= 0 || !o.Sorted? ==>
              WorkOf(f0, ptr[..], b, rk, loSt, hiSt, rest + NewJobs(top, o)) <
                WorkOf(f0, old(ptr[..]), b, rk, loSt, hiSt, rest + [top])
  {
    ghost var f := ptr[..];
    JobInside(f0, f, b, rk, loSt, hiSt, rest, top);
    StillRearranged(f0, f, b, rk, loSt, hiSt, rest + [top]);
    PaidNothing(b, f0, budget);
    hide MainInvariant, Comparable, Agree, Rearranged, SortedBetween, Became, NewJobs, Work, WorkOf, Paid;
    o, left := SortOrPart(ptr, block, quadrant, nblock, top.lo, top.hi, top.d, budget, b, rk);
    PaidOn(b, f0, f, loSt, hiSt, budget, budget, left);
    if left < 0 && o.Sorted? {
      WidenAbandoned(f0, f, ptr[..], b, rk, loSt, hiSt, rest, top);
    } else {
      NewInvariant(f0, f, ptr[..], b, rk, loSt, hiSt, rest, top, o);
      WorkShrinks(f0, f, ptr[..], b, rk, loSt, hiSt, rest, top, o);
      NewCount(top, o);
    }
  }

  lemma StillRearranged(f0: seq<nat>, f: seq<nat>, b: Block, rk: seq<nat>, lo: int, hi: int, st: seq<Job>)
    requires |b| > 0 && MainInvariant(f0, f, b, rk, lo, hi, st)
    ensures Rearranged(f0, f, lo, hi)
  {
  }

  lemma NewCount(top: Job, o: Outcome)
    ensures |NewJobs(top, o)| <= 3 && (!o.Sorted? ==> |NewJobs(top, o)| >= 1)
  {
    hide BySize;
  }

  /** Sorts entries loSt..hiSt, which agree on their first dSt characters, unless the budget runs out.
      The stack of 100 entries never holds more than 36. */
  method MainQSort3(ptr: array<nat>, block: array<byte>, quadrant: array<nat>, nblock: nat, loSt: int, hiSt: int,
                    dSt: nat, budget: int,
                    ghost b: Block, ghost rk: seq<nat>)
    returns (left: int)
    requires ptr != quadrant && ptr as object != block && nblock == |b| == |rk| > 0 && dSt <= 15
    requires Comparable(b, rk, block[..], quadrant[..]) && Indexed(ptr[..], rk)
    requires 0 <= loSt <= hiSt + 1 <= ptr.Length <= 900000 && Agree(b, ptr[..], loSt, hiSt, dSt)
    modifies ptr
    ensures Indexed(ptr[..], rk) && Rearranged(old(ptr[..]), ptr[..], loSt, hiSt)
    ensures Paid(b, old(ptr[..]), budget, left)
    ensures left >= 0 ==> SortedBetween(ptr[..], rk, loSt, hiSt)
  {
    ghost var f0, blk, q := ptr[..], block[..], quadrant[..];
    left := budget;
    PaidNothing(b, f0, budget);
    var stack := new JobStack();
    stack.Push(Job(loSt, hiSt, dSt));
    MainStart(f0, b, rk, loSt, hiSt, dSt);
    assert [] + [Job(loSt, hiSt, dSt)] == [Job(loSt, hiSt, dSt)];
    hide MainInvariant, Comparable, Agree, Rearranged, SortedBetween, NewJobs, WorkOf, Jobs, Paid;
    while stack.sp > 0
      invariant stack.Valid() && stack.sp <= 36 && Paid(b, f0, budget, left)
      invariant fresh(stack) && fresh(stack.los) && fresh(stack.his) && fresh(stack.ds)
      invariant MainInvariant(f0, ptr[..], b, rk, loSt, hiSt, stack.st)
      invariant block[..] == blk && quadrant[..] == q
      decreases WorkOf(f0, ptr[..], b, rk, loSt, hiSt, stack.st)
    {
      assert stack.sp < MAIN_QSORT_STACK_SIZE - 2;
      var top := stack.Pop();
      var o;
      ghost var before := left;
      o, left := Round(ptr, block, quadrant, nblock, top, left, loSt, hiSt, f0, stack.st, b, rk);
      PaidBoth(b, f0, f0, budget, before, left);
      if left < 0 && o.Sorted? { return; }
      NewCount(top, o);
      PushNew(stack, top, o);
    }
    MainEnd(f0, ptr[..], b, rk, loSt, hiSt);
  }

  lemma WidenAbandoned(f0: seq<nat>, f: seq<nat>, g: seq<nat>, b: Block, rk: seq<nat>, lo: int, hi: int, st: seq<Job>,
                       top: Job)
    requires |b| > 0 && MainInvariant(f0, f, b, rk, lo, hi, st + [top]) && Rearranged(f, g, top.lo, top.hi)
    ensures Rearranged(f0, g, lo, hi)
  {
    hide Rearranged, SortedBut, Apart, Agree;
    JobInside(f0, f, b, rk, lo, hi, st, top);
    WidenRearranged(f0, f, g, lo, hi, top.lo, top.hi);
  }
}
