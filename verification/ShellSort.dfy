/** Insertion with a gap, leftwards: one step of Shell's sort.  With gap one it keeps the range to
    the left sorted. */
module ShellSort {
  import opened Rearrange
  import FallbackQSort

  /** Entry k of g came from the left of k, and is not smaller than f[i]. */
  ghost predicate CameRight(f: seq<nat>, g: seq<nat>, ec: seq<nat>, i: int, k: int)
    requires Indexed(f, ec) && 0 < k < |f| == |g| && 0 <= i < |f|
  {
    g[k] == f[k - 1] && ec[f[k - 1]] >= ec[f[i]]
  }

  /** Entries after the hole came one place to the right, past f[i]; those before it are untouched. */
  ghost predicate Shifted(f: seq<nat>, g: seq<nat>, ec: seq<nat>, lo: int, i: int, j: int)
    requires Indexed(f, ec) && 0 <= lo <= j <= i < |f| == |g|
  {
    && (forall k {:trigger g[k]} :: lo <= k < j ==> g[k] == f[k])
    && (forall k :: j < k <= i ==> CameRight(f, g, ec, i, k))
  }

  /** Entry f[i] is in hand, the hole is at j, and entries not smaller have moved right. */
  ghost predicate Inserting(f: seq<nat>, g: seq<nat>, ec: seq<nat>, lo: int, i: int, gap: int, j: int)
    requires Indexed(f, ec)
  {
    && 0 <= lo <= j <= i < |f| == |g| && gap > 0 && Indexed(g, ec)
    && Rearranged(f, g[j := f[i]], lo, i)
    && (gap == 1 ==> Shifted(f, g, ec, lo, i, j))
  }

  lemma InsertingStart(f: seq<nat>, ec: seq<nat>, lo: int, i: int, gap: int)
    requires Indexed(f, ec) && 0 <= lo <= i < |f| && gap > 0
    ensures Inserting(f, f, ec, lo, i, gap, i)
  {
    assert f[i := f[i]] == f;
  }

  lemma ShiftedNext(f: seq<nat>, g: seq<nat>, ec: seq<nat>, lo: int, i: int, j: int)
    requires Indexed(f, ec) && Indexed(g, ec) && 0 <= lo < j <= i < |f| == |g|
    requires Shifted(f, g, ec, lo, i, j) && ec[g[j - 1]] >= ec[f[i]]
    ensures Shifted(f, g[j := g[j - 1]], ec, lo, i, j - 1)
  {
    var hole := j - 1;
    var h := g[j := g[hole]];
    assert h[j] == g[hole] == f[hole];
    forall k {:trigger h[k]} | lo <= k < hole ensures h[k] == f[k] { assert h[k] == g[k]; }
    forall k | hole < k <= i ensures CameRight(f, h, ec, i, k) {
      if k > j { assert CameRight(f, g, ec, i, k); }
    }
  }

  lemma InsertingStep(f: seq<nat>, g: seq<nat>, ec: seq<nat>, lo: int, i: int, gap: int, j: int)
    requires Indexed(f, ec) && Inserting(f, g, ec, lo, i, gap, j)
    requires j - gap >= lo && ec[g[j - gap]] >= ec[f[i]]
    ensures Inserting(f, g[j := g[j - gap]], ec, lo, i, gap, j - gap)
  {
    hide Rearranged;
    FallbackQSort.MoveHole(f, g, j, j - gap, f[i], lo, i);
    if gap == 1 {
      hide Indexed;
      ShiftedNext(f, g, ec, lo, i, j);
    }
  }

  /** The entry looked at is one of the range. */
  lemma InsertingLooks(f: seq<nat>, g: seq<nat>, ec: seq<nat>, lo: int, i: int, gap: int, j: int) returns (m: int)
    requires Indexed(f, ec) && Inserting(f, g, ec, lo, i, gap, j) && j - gap >= lo
    ensures lo <= m <= i && f[m] == g[j - gap]
  {
    m := RearrangedFrom(f, g[j := f[i]], lo, i, j - gap);
  }

  lemma InsertingEnd(f: seq<nat>, g: seq<nat>, ec: seq<nat>, lo: int, i: int, gap: int, j: int)
    requires Indexed(f, ec) && Inserting(f, g, ec, lo, i, gap, j)
    requires j - gap >= lo ==> ec[g[j - gap]] <= ec[f[i]]
    ensures var h := g[j := f[i]];
            && Rearranged(f, h, lo, i) && Indexed(h, ec)
            && (gap == 1 && SortedBetween(f, ec, lo, i - 1) ==> SortedBetween(h, ec, lo, i))
  {
    var h := g[j := f[i]];
    if gap == 1 && SortedBetween(f, ec, lo, i - 1) {
      hide SortedBetween, Rearranged;
      assert j > lo ==> g[j - 1] == f[j - 1];
      forall k {:trigger h[k]} | lo <= k < j ensures h[k] == f[k] { assert h[k] == g[k]; }
      forall k | j < k <= i ensures CameRight(f, h, ec, i, k) { assert CameRight(f, g, ec, i, k); }
      InsertedSorted(f, h, ec, lo, i, j);
    }
  }

  lemma InsertedSorted(f: seq<nat>, h: seq<nat>, ec: seq<nat>, lo: int, i: int, j: int)
    requires Indexed(f, ec) && Indexed(h, ec) && 0 <= lo <= j <= i < |f| == |h|
    requires SortedBetween(f, ec, lo, i - 1) && h[j] == f[i]
    requires forall k {:trigger h[k]} :: lo <= k < j ==> h[k] == f[k]
    requires forall k :: j < k <= i ==> CameRight(f, h, ec, i, k)
    requires j > lo ==> ec[f[j - 1]] <= ec[f[i]]
    ensures SortedBetween(h, ec, lo, i)
  {
    forall x, y | lo <= x < y <= i
      ensures Key(h, ec, x) <= Key(h, ec, y)
    {
      if y < j { assert Key(f, ec, x) <= Key(f, ec, y); }
      if y == j && x < j - 1 { assert Key(f, ec, x) <= Key(f, ec, j - 1); }
      if y > j { assert CameRight(f, h, ec, i, y); }
      if x < j < y && x < y - 1 { assert Key(f, ec, x) <= Key(f, ec, y - 1); }
      if j < x {
        assert CameRight(f, h, ec, i, x);
        assert Key(f, ec, x - 1) <= Key(f, ec, y - 1);
      }
    }
  }

  lemma OneSorted(f: seq<nat>, ec: seq<nat>, lo: int, hi: int)
    requires Indexed(f, ec) && 0 <= lo && hi < |f| && hi <= lo
    ensures SortedBetween(f, ec, lo, hi)
  {
  }
}
