/** The three-way partition used by both quicksorts: entries equal to the pivot gather at the
    two ends while the rest is split, and are then swapped into the middle. */
module Partitioning {
  import opened Rearrange

  /** Keys of positions a..b-1 compare with med as c says (-1 less, 0 equal, 1 greater). */
  ghost predicate Stretch(f: seq<nat>, ec: seq<nat>, a: int, b: int, med: nat, c: int)
    requires Indexed(f, ec) && 0 <= a <= b <= |f|
  {
    forall k {:trigger f[k]} :: a <= k < b ==>
      if c < 0 then ec[f[k]] < med else if c > 0 then ec[f[k]] > med else ec[f[k]] == med
  }

  datatype Cuts = Cuts(lo: int, ltLo: int, unLo: int, unHi: int, gtHi: int, hi: int)

  ghost predicate InOrder(c: Cuts, n: nat) {
    0 <= c.lo <= c.ltLo <= c.unLo <= c.unHi + 1 <= c.gtHi + 1 <= c.hi + 1 <= n
  }

  /** equal | less | not yet seen | greater | equal */
  ghost predicate Partitioned(f: seq<nat>, ec: seq<nat>, c: Cuts, med: nat)
    requires Indexed(f, ec)
  {
    && InOrder(c, |f|)
    && Stretch(f, ec, c.lo, c.ltLo, med, 0)
    && Stretch(f, ec, c.ltLo, c.unLo, med, -1)
    && Stretch(f, ec, c.unHi + 1, c.gtHi + 1, med, 1)
    && Stretch(f, ec, c.gtHi + 1, c.hi + 1, med, 0)
  }

  method Swap(fmap: array<nat>, i: int, j: int)
    requires 0 <= i < fmap.Length && 0 <= j < fmap.Length
    modifies fmap
    ensures fmap[..] == old(fmap[..])[i := old(fmap[j])][j := old(fmap[i])]
  {
    fmap[i], fmap[j] := fmap[j], fmap[i];
  }

  /** What one step of the upward scan does to the cuts. */
  lemma UpStep(f: seq<nat>, ec: seq<nat>, c: Cuts, med: nat)
    requires Indexed(f, ec) && Partitioned(f, ec, c, med) && c.unLo <= c.unHi
    ensures Key(f, ec, c.unLo) < med ==> Partitioned(f, ec, c.(unLo := c.unLo + 1), med)
    ensures Key(f, ec, c.unLo) == med ==>
              var g := f[c.unLo := f[c.ltLo]][c.ltLo := f[c.unLo]];
              Indexed(g, ec) && Partitioned(g, ec, c.(ltLo := c.ltLo + 1, unLo := c.unLo + 1), med)
  {
  }

  lemma DownStep(f: seq<nat>, ec: seq<nat>, c: Cuts, med: nat)
    requires Indexed(f, ec) && Partitioned(f, ec, c, med) && c.unLo <= c.unHi
    ensures Key(f, ec, c.unHi) > med ==> Partitioned(f, ec, c.(unHi := c.unHi - 1), med)
    ensures Key(f, ec, c.unHi) == med ==>
              var g := f[c.unHi := f[c.gtHi]][c.gtHi := f[c.unHi]];
              Indexed(g, ec) && Partitioned(g, ec, c.(gtHi := c.gtHi - 1, unHi := c.unHi - 1), med)
  {
  }

  lemma CrossStep(f: seq<nat>, ec: seq<nat>, c: Cuts, med: nat)
    requires Indexed(f, ec) && Partitioned(f, ec, c, med) && c.unLo <= c.unHi
    requires Key(f, ec, c.unLo) > med && Key(f, ec, c.unHi) < med
    ensures c.unLo < c.unHi
    ensures var g := f[c.unLo := f[c.unHi]][c.unHi := f[c.unLo]];
            Indexed(g, ec) && Partitioned(g, ec, c.(unLo := c.unLo + 1, unHi := c.unHi - 1), med)
  {
  }

  method ScanUp(fmap: array<nat>, ec: seq<nat>, c: Cuts, med: nat) returns (d: Cuts)
    requires Indexed(fmap[..], ec) && Partitioned(fmap[..], ec, c, med)
    modifies fmap
    ensures Indexed(fmap[..], ec) && Partitioned(fmap[..], ec, d, med)
    ensures Rearranged(old(fmap[..]), fmap[..], c.lo, c.hi)
    ensures d.(ltLo := c.ltLo, unLo := c.unLo) == c && c.unLo <= d.unLo
    ensures d.unLo <= d.unHi ==> Key(fmap[..], ec, d.unLo) > med
  {
    hide Partitioned, Rearranged;
    ghost var f := fmap[..];
    RearrangedSelf(f, c.lo, c.hi);
    d := c;
    PartitionedInOrder(f, ec, d, med);
    while true
      invariant Indexed(fmap[..], ec) && Partitioned(fmap[..], ec, d, med)
      invariant Rearranged(f, fmap[..], c.lo, c.hi)
      invariant d.(ltLo := c.ltLo, unLo := c.unLo) == c && c.unLo <= d.unLo
      decreases d.unHi - d.unLo
    {
      PartitionedInOrder(fmap[..], ec, d, med);
      if d.unLo > d.unHi { break; }
      UpStep(fmap[..], ec, d, med);
      var n := ec[fmap[d.unLo]] - med;
      if n == 0 {
        SwapRearranges2(f, fmap[..], d.unLo, d.ltLo, c.lo, c.hi);
        Swap(fmap, d.unLo, d.ltLo);
        d := d.(ltLo := d.ltLo + 1, unLo := d.unLo + 1);
        continue;
      }
      if n > 0 { break; }
      d := d.(unLo := d.unLo + 1);
    }
  }

  method ScanDown(fmap: array<nat>, ec: seq<nat>, c: Cuts, med: nat) returns (d: Cuts)
    requires Indexed(fmap[..], ec) && Partitioned(fmap[..], ec, c, med)
    requires c.unLo <= c.unHi ==> Key(fmap[..], ec, c.unLo) > med
    modifies fmap
    ensures Indexed(fmap[..], ec) && Partitioned(fmap[..], ec, d, med)
    ensures Rearranged(old(fmap[..]), fmap[..], c.lo, c.hi)
    ensures d.(gtHi := c.gtHi, unHi := c.unHi) == c && d.unHi <= c.unHi
    ensures d.unLo <= d.unHi ==> Key(fmap[..], ec, d.unHi) < med && Key(fmap[..], ec, d.unLo) > med
  {
    hide Partitioned, Rearranged;
    ghost var f := fmap[..];
    RearrangedSelf(f, c.lo, c.hi);
    d := c;
    PartitionedInOrder(f, ec, d, med);
    while true
      invariant Indexed(fmap[..], ec) && Partitioned(fmap[..], ec, d, med)
      invariant Rearranged(f, fmap[..], c.lo, c.hi)
      invariant d.(gtHi := c.gtHi, unHi := c.unHi) == c && d.unHi <= c.unHi
      invariant InOrder(d, fmap.Length)
      invariant d.unLo <= d.unHi ==> Key(fmap[..], ec, d.unLo) > med
      decreases d.unHi - d.unLo
    {
      if d.unLo > d.unHi { break; }
      DownStep(fmap[..], ec, d, med);
      var n := ec[fmap[d.unHi]] - med;
      if n == 0 {
        SwapRearranges2(f, fmap[..], d.unHi, d.gtHi, c.lo, c.hi);
        Swap(fmap, d.unHi, d.gtHi);
        d := d.(gtHi := d.gtHi - 1, unHi := d.unHi - 1);
        PartitionedInOrder(fmap[..], ec, d, med);
        continue;
      }
      if n < 0 { break; }
      d := d.(unHi := d.unHi - 1);
      PartitionedInOrder(fmap[..], ec, d, med);
    }
  }

  lemma PartitionedInOrder(f: seq<nat>, ec: seq<nat>, c: Cuts, med: nat)
    requires Indexed(f, ec) && Partitioned(f, ec, c, med)
    ensures InOrder(c, |f|)
  {
  }

  lemma PartitionStart(f: seq<nat>, ec: seq<nat>, lo: int, hi: int, med: nat)
    requires Indexed(f, ec) && 0 <= lo <= hi < |f|
    ensures Partitioned(f, ec, Cuts(lo, lo, lo, hi, hi, hi), med)
  {
  }

  /** Splits lo..hi around med; on return nothing is left unseen. */
  method Partition(fmap: array<nat>, ec: seq<nat>, lo: int, hi: int, med: nat) returns (c: Cuts)
    requires 0 <= lo <= hi < fmap.Length && Indexed(fmap[..], ec)
    modifies fmap
    ensures Indexed(fmap[..], ec) && Partitioned(fmap[..], ec, c, med)
    ensures Rearranged(old(fmap[..]), fmap[..], lo, hi)
    ensures c.lo == lo && c.hi == hi && c.unHi == c.unLo - 1
  {
    hide Partitioned, Rearranged;
    ghost var f := fmap[..];
    RearrangedSelf(f, lo, hi);
    PartitionStart(f, ec, lo, hi, med);
    c := Cuts(lo, lo, lo, hi, hi, hi);
    while true
      invariant Indexed(fmap[..], ec) && Partitioned(fmap[..], ec, c, med)
      invariant Rearranged(f, fmap[..], lo, hi)
      invariant c.lo == lo && c.hi == hi
      decreases c.unHi - c.unLo + 1
    {
      ghost var g := fmap[..];
      PartitionedInOrder(fmap[..], ec, c, med);
      c := ScanUp(fmap, ec, c, med);
      RearrangedTransitive(f, g, fmap[..], lo, hi);
      g := fmap[..];
      c := ScanDown(fmap, ec, c, med);
      RearrangedTransitive(f, g, fmap[..], lo, hi);
      PartitionedInOrder(fmap[..], ec, c, med);
      if c.unLo > c.unHi { break; }
      CrossStep(fmap[..], ec, c, med);
      SwapRearranges2(f, fmap[..], c.unLo, c.unHi, lo, hi);
      Swap(fmap, c.unLo, c.unHi);
      c := c.(unLo := c.unLo + 1, unHi := c.unHi - 1);
    }
  }

  // ---- bringing the equal entries into the middle ----

  /** g is f with two disjoint blocks of n entries exchanged. */
  ghost predicate BlocksSwapped(f: seq<nat>, g: seq<nat>, p: int, q: int, n: int) {
    && 0 <= p <= p + n <= q <= q + n <= |f| == |g|
    && forall k {:trigger g[k]} :: 0 <= k < |g| ==>
         g[k] == if p <= k < p + n then f[k - p + q] else if q <= k < q + n then f[k - q + p] else f[k]
  }

  method SwapBlocks(fmap: array<nat>, p: int, q: int, n: int, ghost lo: int, ghost hi: int)
    requires 0 <= p <= p + n <= q <= q + n <= fmap.Length
    requires 0 <= lo <= p && q + n <= hi + 1 <= fmap.Length
    modifies fmap
    ensures BlocksSwapped(old(fmap[..]), fmap[..], p, q, n)
    ensures Rearranged(old(fmap[..]), fmap[..], lo, hi)
  {
    hide Rearranged;
    ghost var f := fmap[..];
    RearrangedSelf(f, lo, hi);
    var y := n;
    while y > 0
      invariant 0 <= y <= n
      invariant BlocksSwapped(f, fmap[..], p, q, n - y)
      invariant Rearranged(f, fmap[..], lo, hi)
    {
      SwapRearranges2(f, fmap[..], p + n - y, q + n - y, lo, hi);
      BlocksSwappedNext(f, fmap[..], p, q, n - y);
      Swap(fmap, p + n - y, q + n - y);
      y := y - 1;
    }
  }

  lemma BlocksSwappedNext(f: seq<nat>, g: seq<nat>, p: int, q: int, n: int)
    requires BlocksSwapped(f, g, p, q, n) && p + n < q && q + n < |f|
    ensures BlocksSwapped(f, g[p + n := g[q + n]][q + n := g[p + n]], p, q, n + 1)
  {
  }

  /** less lo..n | equal n+1..m-1 | greater m..hi */
  ghost predicate Split(f: seq<nat>, ec: seq<nat>, lo: int, n: int, m: int, hi: int, med: nat)
    requires Indexed(f, ec)
  {
    && 0 <= lo <= n + 1 <= m <= hi + 1 <= |f|
    && Stretch(f, ec, lo, n + 1, med, -1)
    && Stretch(f, ec, n + 1, m, med, 0)
    && Stretch(f, ec, m, hi + 1, med, 1)
  }

  function Min(a: int, b: int): int { if a < b then a else b }

  lemma GatherLow(f: seq<nat>, g: seq<nat>, ec: seq<nat>, c: Cuts, med: nat)
    requires Indexed(f, ec) && Partitioned(f, ec, c, med) && c.unHi == c.unLo - 1
    requires var n := Min(c.ltLo - c.lo, c.unLo - c.ltLo); BlocksSwapped(f, g, c.lo, c.unLo - n, n)
    ensures Indexed(g, ec)
    ensures Stretch(g, ec, c.lo, c.lo + c.unLo - c.ltLo, med, -1)
    ensures Stretch(g, ec, c.lo + c.unLo - c.ltLo, c.unLo, med, 0)
    ensures Stretch(g, ec, c.unLo, c.gtHi + 1, med, 1)
    ensures Stretch(g, ec, c.gtHi + 1, c.hi + 1, med, 0)
  {
  }

  lemma GatherHigh(f: seq<nat>, g: seq<nat>, ec: seq<nat>, c: Cuts, e: int, med: nat)
    requires Indexed(f, ec) && 0 <= c.lo <= e <= c.unLo <= c.gtHi + 1 <= c.hi + 1 <= |f|
    requires Stretch(f, ec, c.lo, e, med, -1) && Stretch(f, ec, e, c.unLo, med, 0)
    requires Stretch(f, ec, c.unLo, c.gtHi + 1, med, 1) && Stretch(f, ec, c.gtHi + 1, c.hi + 1, med, 0)
    requires var m := Min(c.hi - c.gtHi, c.gtHi + 1 - c.unLo); BlocksSwapped(f, g, c.unLo, c.hi - m + 1, m)
    ensures Indexed(g, ec)
    ensures Split(g, ec, c.lo, e - 1, c.hi - (c.gtHi + 1 - c.unLo) + 1, c.hi, med)
  {
  }

  /** Partition, then gather: returns the last position of the less part and the first of
      the greater part; allEqual says that every entry had the pivot's key. */
  method ThreeWay(fmap: array<nat>, ec: seq<nat>, lo: int, hi: int, med: nat)
    returns (allEqual: bool, n: int, m: int)
    requires 0 <= lo <= hi < fmap.Length && Indexed(fmap[..], ec)
    modifies fmap
    ensures Indexed(fmap[..], ec) && Rearranged(old(fmap[..]), fmap[..], lo, hi)
    ensures allEqual ==> Stretch(fmap[..], ec, lo, hi + 1, med, 0)
    ensures !allEqual ==> Split(fmap[..], ec, lo, n, m, hi, med)
  {
    hide Partitioned, Rearranged, Split, Stretch, BlocksSwapped;
    ghost var f := fmap[..];
    var c := Partition(fmap, ec, lo, hi, med);
    PartitionedInOrder(fmap[..], ec, c, med);
    n, m := lo, hi;
    allEqual := c.gtHi < c.ltLo;
    if allEqual {
      AllEqual(fmap[..], ec, c, med);
      return;
    }
    ghost var g := fmap[..];
    n := Min(c.ltLo - c.lo, c.unLo - c.ltLo);
    SwapBlocks(fmap, lo, c.unLo - n, n, lo, hi);
    GatherLow(g, fmap[..], ec, c, med);
    RearrangedTransitive(f, g, fmap[..], lo, hi);
    g := fmap[..];
    m := Min(hi - c.gtHi, c.gtHi - c.unHi);
    SwapBlocks(fmap, c.unLo, hi - m + 1, m, lo, hi);
    GatherHigh(g, fmap[..], ec, c, lo + c.unLo - c.ltLo, med);
    RearrangedTransitive(f, g, fmap[..], lo, hi);
    n := lo + c.unLo - c.ltLo - 1;
    m := hi - (c.gtHi - c.unHi) + 1;
  }

  lemma AllEqual(f: seq<nat>, ec: seq<nat>, c: Cuts, med: nat)
    requires Indexed(f, ec) && Partitioned(f, ec, c, med) && c.unHi == c.unLo - 1 && c.gtHi < c.ltLo
    ensures Stretch(f, ec, c.lo, c.hi + 1, med, 0)
  {
  }
}
