/** The main block sorter: small buckets by radix, then the big buckets in turn.  The small buckets of
    each that are not in order yet are quicksorted; scanning it then puts others in order. */
module MainSort {
  import opened Rotations
  import opened Permutations
  import opened RotationRanks
  import opened MainCompare
  import opened Rearrange
  import opened MainSimpleSort
  import opened MainQSort
  import opened SmallBuckets
  import opened ScanOrder
  import opened ScanSlots
  import opened PointerScan
  import opened BucketOrder
  import opened QuadrantCache
  import opened Repetitions
  import opened QuadrantClaim

  // ---- marks in the table of bucket starts ----

  /** 1 << 21 */
  const SETMASK: nat := 0x20_0000

  predicate IsSet(v: nat) {
    v >= SETMASK
  }

  function Clear(v: nat): nat {
    if v >= SETMASK then v - SETMASK else v
  }

  function SetMark(v: nat): nat {
    if v >= SETMASK then v else v + SETMASK
  }

  /** The table holds the bucket starts, some of them marked. */
  ghost predicate Starts(b: Block, ftab: seq<nat>) {
    && 0 < |b| <= 900000 && |ftab| == 0x1_0001
    && forall c: nat :: c <= 0x1_0000 ==> Clear(ftab[c]) == Start(b, c)
  }

  /** Marked buckets are in order. */
  ghost predicate MarksTrue(b: Block, rk: seq<nat>, p: seq<nat>, ftab: seq<nat>)
    requires |b| > 0 && |rk| == |b| == |p| && |ftab| == 0x1_0001
  {
    forall c: nat :: c < 0x1_0000 && IsSet(ftab[c]) ==> BucketSorted(b, rk, p, c)
  }

  /** Buckets of either character of a big bucket that is done are marked. */
  ghost predicate DoneMarked(ftab: seq<nat>, done: seq<bool>)
    requires |ftab| == 0x1_0001 && |done| == 256
  {
    forall c: byte, d: byte :: done[c] || done[d] ==> IsSet(ftab[Code(c, d)])
  }

  /** The state of the sort between two big buckets. */
  ghost predicate Table(b: Block, rk: seq<nat>, p: seq<nat>, ftab: seq<nat>, done: seq<bool>) {
    && Starts(b, ftab) && |rk| == |b| && |done| == 256
    && Grouped(b, p) && MarksTrue(b, rk, p, ftab) && DoneMarked(ftab, done)
  }

  lemma CodeSmall(c: byte, d: byte)
    ensures Code(c, d) < 0x1_0000
  {
  }

  lemma MarkOne(b: Block, rk: seq<nat>, p: seq<nat>, ftab: seq<nat>, done: seq<bool>, c: nat)
    requires Table(b, rk, p, ftab, done) && c < 0x1_0000 && BucketSorted(b, rk, p, c)
    ensures Table(b, rk, p, ftab[c := SetMark(ftab[c])], done)
  {
    hide Grouped, BucketSorted, Start, Code;
    forall e: byte, d: byte ensures Code(e, d) < 0x1_0000 { CodeSmall(e, d); }
  }

  // ---- quicksorting one small bucket ----

  /** The members of a small bucket agree on two characters. */
  lemma BucketAgrees(b: Block, p: seq<nat>, c: nat)
    requires Grouped(b, p)
    ensures Start(b, c + 1) <= |b| && Agree(b, p, Start(b, c), Start(b, c + 1) - 1, 2)
  {
    hide Start;
    forall i, j | Start(b, c) <= i <= Start(b, c + 1) - 1 && Start(b, c) <= j <= Start(b, c + 1) - 1
      ensures Cmp(b, p[i], p[j], 2) == 0
    {
      SlotTells(b, p, i, c);
      SlotTells(b, p, j, c);
      PairsAgree(b, p[i], p[j]);
    }
  }

  lemma PairsAgree(b: Block, x: nat, y: nat)
    requires |b| > 0 && Pair(b, x) == Pair(b, y)
    ensures Cmp(b, x, y, 2) == 0
  {
    assert Cmp(b, x + 2, y + 2, 0) == 0;
    assert Cmp(b, x + 1, y + 1, 1) == 0;
  }

  lemma RearrangedGrouped(b: Block, p: seq<nat>, g: seq<nat>, c: nat)
    requires Grouped(b, p) && Rearranged(p, g, Start(b, c), Start(b, c + 1) - 1)
    ensures Grouped(b, g)
  {
    hide Start, Pair;
    var lo: int, hi: int := Start(b, c), Start(b, c + 1) - 1;
    StillAllBytes(p, g, |b|);
    forall k | 0 <= k < |b|
      ensures Start(b, Pair(b, g[k])) <= k < Start(b, Pair(b, g[k]) + 1)
    {
      if lo <= k <= hi {
        var m := RearrangedFrom(p, g, lo, hi, k);
        SlotTells(b, p, m, c);
      }
    }
  }

  /** Sorting one bucket leaves the others in order. */
  lemma RearrangedSorted(b: Block, rk: seq<nat>, p: seq<nat>, g: seq<nat>, c: nat, e: nat)
    requires |b| > 0 && |rk| == |b| == |p| && Rearranged(p, g, Start(b, c), Start(b, c + 1) - 1) && e != c
    requires BucketSorted(b, rk, p, e)
    ensures BucketSorted(b, rk, g, e)
  {
    hide Start;
    if e < c { BucketsApart(b, e, c); } else { BucketsApart(b, c, e); }
  }

  lemma RearrangedTable(b: Block, rk: seq<nat>, p: seq<nat>, g: seq<nat>, ftab: seq<nat>, done: seq<bool>, c: nat)
    requires Table(b, rk, p, ftab, done) && c < 0x1_0000 && !IsSet(ftab[c])
             && Rearranged(p, g, Start(b, c), Start(b, c + 1) - 1)
    ensures Table(b, rk, g, ftab, done)
  {
    hide Start, Grouped, BucketSorted, Rearranged;
    RearrangedGrouped(b, p, g, c);
    GroupedSize(b, p);
    GroupedSize(b, g);
    forall e: nat | e < 0x1_0000 && IsSet(ftab[e]) ensures BucketSorted(b, rk, g, e) {
      RearrangedSorted(b, rk, p, g, c, e);
    }
  }

  lemma GroupedSize(b: Block, p: seq<nat>)
    requires Grouped(b, p)
    ensures |p| == |b| > 0
  {
  }

  lemma SortedIsBucket(b: Block, rk: seq<nat>, p: seq<nat>, c: nat)
    requires |b| > 0 && |rk| == |b| == |p| && Indexed(p, rk) && SortedBetween(p, rk, Start(b, c), Start(b, c + 1) - 1)
    ensures BucketSorted(b, rk, p, c)
  {
    hide Start;
    forall i, j | Start(b, c) <= i < j < Start(b, c + 1) && p[i] < |b| && p[j] < |b|
      ensures rk[p[i]] <= rk[p[j]]
    {
      assert Key(p, rk, i) <= Key(p, rk, j);
    }
  }

  lemma ShortIsSorted(b: Block, rk: seq<nat>, p: seq<nat>, c: nat)
    requires |b| > 0 && |rk| == |b| == |p| && Start(b, c + 1) <= Start(b, c) + 1
    ensures BucketSorted(b, rk, p, c)
  {
  }

  lemma GroupedIndexed(b: Block, rk: seq<nat>, p: seq<nat>)
    requires Grouped(b, p) && |rk| == |b|
    ensures Indexed(p, rk) && |p| == |b|
  {
  }

  /** The arrays are apart. */
  ghost predicate Separate(ptr: array<nat>, block: array<byte>, quadrant: array<nat>, ftab: array<nat>) {
    ptr != quadrant && ptr != ftab && quadrant != ftab && ptr as object != block && quadrant as object != block
    && ftab as object != block
  }

  /** The small bucket of ss and j is quicksorted unless it is in order already. */
  method SortSmall(ptr: array<nat>, block: array<byte>, quadrant: array<nat>, ftab: array<nat>, nblock: nat, ss: byte,
                   j: byte, budget: int,
                   ghost b: Block, ghost rk: seq<nat>, ghost done: seq<bool>)
    returns (left: int)
    requires Separate(ptr, block, quadrant, ftab) && nblock == |b| == |rk| == ptr.Length > 0
    requires Comparable(b, rk, block[..], quadrant[..]) && Table(b, rk, ptr[..], ftab[..], done)
             && ftab.Length == 0x1_0001 && nblock <= 900000 && budget >= 0
    modifies ptr, ftab
    ensures Thrifty(b, budget, left) && Grouped(b, ptr[..])
    ensures left >= 0 ==> Table(b, rk, ptr[..], ftab[..], done) && IsSet(ftab[Code(ss, j)])
    ensures forall c: nat :: c < 0x1_0000 && IsSet(old(ftab[c])) ==> IsSet(ftab[c])
  {
    hide Comparable, Grouped, BucketSorted, MarksTrue, DoneMarked, Start, Code, Pair, Thrifty, Paid;
    left := budget;
    ThriftyNothing(b, budget);
    var sb := Code(ss, j);
    CodeSmall(ss, j);
    ghost var p := ptr[..];
    GroupedIndexed(b, rk, p);
    if !IsSet(ftab[sb]) {
      var lo: int, hi: int := Clear(ftab[sb]), Clear(ftab[sb + 1]) - 1;
      if hi > lo {
        BucketAgrees(b, p, sb);
        left := MainQSort3(ptr, block, quadrant, nblock, lo, hi, N_RADIX, budget, b, rk);
        GroupedOnce(b, p);
        PaidOnce(b, p, budget, left);
        RearrangedTable(b, rk, p, ptr[..], ftab[..], done, sb);
        if left < 0 { return; }
        SortedIsBucket(b, rk, ptr[..], sb);
      } else {
        ShortIsSorted(b, rk, p, sb);
      }
    } else {
      MarkedSorted(b, rk, p, ftab[..], sb);
    }
    MarkOne(b, rk, ptr[..], ftab[..], done, sb);
    ftab[sb] := SetMark(ftab[sb]);
  }

  lemma GroupedOnce(b: Block, p: seq<nat>)
    requires Grouped(b, p)
    ensures |b| > 0 && IsPerm(p, |b|)
  {
  }

  lemma MarkedSorted(b: Block, rk: seq<nat>, p: seq<nat>, ftab: seq<nat>, c: nat)
    requires |b| > 0 && |rk| == |b| == |p| && |ftab| == 0x1_0001 && MarksTrue(b, rk, p, ftab) && c < 0x1_0000
             && IsSet(ftab[c])
    ensures BucketSorted(b, rk, p, c)
  {
  }

  /** Step 1: the small buckets of a big bucket, but for the one of the character twice. */
  method SortOthers(ptr: array<nat>, block: array<byte>, quadrant: array<nat>, ftab: array<nat>, nblock: nat,
                    ss: byte, budget: int,
                    ghost b: Block, ghost rk: seq<nat>, ghost done: seq<bool>)
    returns (left: int)
    requires Separate(ptr, block, quadrant, ftab) && nblock == |b| == |rk| == ptr.Length > 0
    requires Comparable(b, rk, block[..], quadrant[..]) && Table(b, rk, ptr[..], ftab[..], done)
             && ftab.Length == 0x1_0001 && nblock <= 900000 && budget >= 0
    modifies ptr, ftab
    ensures Thrifty(b, budget, left) && Grouped(b, ptr[..])
    ensures left >= 0 ==>
              Table(b, rk, ptr[..], ftab[..], done) && forall d: byte :: d != ss ==> IsSet(ftab[Code(ss, d)])
  {
    hide Comparable, Grouped, Table, Code, Thrifty;
    ghost var blk, q := block[..], quadrant[..];
    left := budget;
    ThriftyNothing(b, budget);
    TableGrouped(b, rk, ptr[..], ftab[..], done);
    forall d: byte ensures Code(ss, d) < 0x1_0000 { CodeSmall(ss, d); }
    for j := 0 to 256
      invariant 0 <= left && Thrifty(b, budget, left) && block[..] == blk && quadrant[..] == q
      invariant Table(b, rk, ptr[..], ftab[..], done) && Grouped(b, ptr[..])
      invariant forall d: byte :: d < j && d != ss ==> IsSet(ftab[Code(ss, d)])
    {
      if j != ss {
        ghost var t, before := ftab[..], left;
        left := SortSmall(ptr, block, quadrant, ftab, nblock, ss, j, left, b, rk, done);
        ThriftyBoth(b, budget, before, left);
        if left < 0 { return; }
        forall d: byte | d < j + 1 && d != ss ensures IsSet(ftab[Code(ss, d)]) {
          if d < j { assert IsSet(t[Code(ss, d)]); }
        }
      }
    }
  }

  lemma TableGrouped(b: Block, rk: seq<nat>, p: seq<nat>, ftab: seq<nat>, done: seq<bool>)
    requires Table(b, rk, p, ftab, done)
    ensures Grouped(b, p) && Starts(b, ftab) && |rk| == |b| == |p| && |done| == 256
  {
  }

  // ---- scanning ----

  /** The sorted small buckets a scan needs. */
  lemma OthersInOrder(b: Block, rk: seq<nat>, p: seq<nat>, ftab: seq<nat>, done: seq<bool>, ss: byte)
    requires Table(b, rk, p, ftab, done) && forall d: byte :: d != ss ==> IsSet(ftab[Code(ss, d)])
    ensures |rk| == |b| == |p| && forall d: byte :: d != ss ==> BucketSorted(b, rk, p, Code(ss, d))
  {
    GroupedSize(b, p);
    hide BucketSorted, Code, Grouped;
    forall d: byte | d != ss ensures BucketSorted(b, rk, p, Code(ss, d)) { CodeSmall(ss, d); }
  }

  /** All buckets with ss in second place are in order after the scans. */
  lemma ScanSorts(b: Block, rk: seq<nat>, ss: byte, done: seq<bool>, p0: seq<nat>, p: seq<nat>, xs: seq<nat>,
                  ys: seq<nat>, pos: seq<int>,
                  ftab: seq<nat>, t: byte, d: byte)
    requires Table(b, rk, p0, ftab, done) && Ranks(b, rk) && Scanned(b, rk, ss, done, p0, p, xs, ys, pos) && |p| == |b|
    requires d == ss || IsSet(ftab[Code(t, d)])
    ensures BucketSorted(b, rk, p, Code(t, d))
  {
    hide BucketSorted, Code, Grouped, Scanned, Ranks, OnlyRun, Listed, FillingAll, OthersKept;
    CodeSmall(t, d);
    ScannedParts(b, rk, ss, done, p0, p, xs, ys, pos);
    if OnlyRun(b, ss) {
      RunSorted(b, rk, ss, done, p0, p, xs, ys, pos, Code(t, d));
    } else if d == ss && !done[t] {
      FilledSorted(b, rk, ss, done, p0, p, xs, ys, pos, t);
    } else {
      OthersSorted(b, rk, ss, done, p0, p, t, d);
    }
  }

  lemma ScanGroups(b: Block, rk: seq<nat>, ss: byte, done: seq<bool>, p0: seq<nat>, p: seq<nat>, xs: seq<nat>,
                   ys: seq<nat>, pos: seq<int>)
    requires |rk| == |b| > 0 && Ranks(b, rk) && Grouped(b, p0) && Scanned(b, rk, ss, done, p0, p, xs, ys, pos)
             && |p| == |b|
    ensures Grouped(b, p)
  {
    hide Grouped, Scanned, Ranks, OnlyRun;
    if OnlyRun(b, ss) {
      RunSorted(b, rk, ss, done, p0, p, xs, ys, pos, 0);
    } else {
      StillGrouped(b, rk, ss, done, p0, p, xs, ys, pos);
    }
  }

  lemma CodeParts(code: nat) returns (t: byte, d: byte)
    requires code < 0x1_0000
    ensures code == Code(t, d)
  {
    t, d := code / 256, code % 256;
  }

  /** The state after both scans, all buckets of ss being marked and ss done. */
  lemma ScanTable(b: Block, rk: seq<nat>, ss: byte, done: seq<bool>, p0: seq<nat>, p: seq<nat>, xs: seq<nat>,
                  ys: seq<nat>, pos: seq<int>,
                  ftab: seq<nat>, ftab2: seq<nat>)
    requires Table(b, rk, p0, ftab, done) && Ranks(b, rk) && Scanned(b, rk, ss, done, p0, p, xs, ys, pos) && |p| == |b|
    requires |ftab2| == 0x1_0001 && forall c: nat :: c <= 0x1_0000 ==> Clear(ftab2[c]) == Clear(ftab[c])
    requires forall t: byte, d: byte :: IsSet(ftab2[Code(t, d)]) <==> IsSet(ftab[Code(t, d)]) || d == ss
    requires forall d: byte :: d != ss ==> IsSet(ftab[Code(ss, d)])
    ensures Table(b, rk, p, ftab2, done[ss := true])
  {
    forall c: byte, d: byte ensures Code(c, d) < 0x1_0000 { CodeSmall(c, d); }
    hide BucketSorted, Code, Grouped, Scanned, Ranks, Start;
    ScanGroups(b, rk, ss, done, p0, p, xs, ys, pos);
    forall c: nat | c < 0x1_0000 && IsSet(ftab2[c]) ensures BucketSorted(b, rk, p, c) {
      var t, d := CodeParts(c);
      ScanSorts(b, rk, ss, done, p0, p, xs, ys, pos, ftab, t, d);
    }
    forall c: byte, d: byte | done[ss := true][c] || done[ss := true][d] ensures IsSet(ftab2[Code(c, d)]) {
      if c != ss && d != ss { assert IsSet(ftab[Code(c, d)]); }
    }
  }

  lemma {:induction false} RunBucket(b: Block, c: byte, k: nat)
    requires |b| > 0 && OnlyRun(b, c)
    ensures Under(b, k, Code(c, c)) == 0 && Under(b, k, Code(c, c) + 1) == k
  {
    if k > 0 {
      RunBucket(b, c, k - 1);
      CharIs(b, k - 1, c);
      CharIs(b, k, c);
    }
  }

  /** The two scans meet, or the block is one run and they met nothing at all. */
  lemma ScansMeet(b: Block, rk: seq<nat>, ss: byte, done: seq<bool>, p0: seq<nat>, p1: seq<nat>, p: seq<nat>,
                  xs: seq<nat>, ys: seq<nat>, pos1: seq<int>, pos: seq<int>)
    requires |b| > 0 && |rk| == |b| == |p0| && Ranks(b, rk) && Grouped(b, p0)
             && Scanned(b, rk, ss, done, p0, p, xs, ys, pos)
    requires Scanning(b, rk, ss, done, true, p0, p1, Base(b, ss, true, p0), xs, [], pos1)
             && |done| == |pos| == |pos1| == 256 && !done[ss]
    ensures pos1[ss] - 1 == pos[ss] || (pos1[ss] == 0 && pos[ss] == |b| - 1)
  {
    hide Placed, Start, Code, Grouped, Ranks, OnlyRun, Base, Found, Fed, Listed, OthersKept;
    assert Filling(b, ss, ss, true, p1, Placed(b, xs, ss), Placed(b, [], ss), pos1[ss]);
    assert Filling(b, ss, ss, false, p, Placed(b, ys, ss), Placed(b, xs, ss), pos[ss]);
    if OnlyRun(b, ss) {
      ScannedParts(b, rk, ss, done, p0, p, xs, ys, pos);
      RunListsNothing(b, rk, ss, true, xs);
      RunListsNothing(b, rk, ss, false, ys);
      NothingPlaced(b, ss);
      RunStart(b, ss);
    } else {
      BucketFull(b, rk, ss, done, p0, p, xs, ys, pos, ss);
    }
  }

  lemma NothingPlaced(b: Block, t: byte)
    ensures Placed(b, [], t) == []
  {
  }

  lemma RunStart(b: Block, c: byte)
    requires |b| > 0 && OnlyRun(b, c)
    ensures Start(b, Code(c, c)) == 0 && Start(b, Code(c, c) + 1) == |b|
  {
    RunBucket(b, c, |b|);
  }

  /** Where the scans start filling the buckets of second character ss. */
  method FillStarts(ftab: array<nat>, ss: byte, ghost b: Block) returns (copyStart: array<int>, copyEnd: array<int>)
    requires Starts(b, ftab[..])
    ensures fresh(copyStart) && fresh(copyEnd) && copyStart != copyEnd && copyStart.Length == copyEnd.Length == 256
    ensures forall t: byte :: copyStart[t] == Start(b, Code(t, ss)) && copyEnd[t] == Start(b, Code(t, ss) + 1) - 1
  {
    hide Start, Code;
    forall c: byte, d: byte ensures Code(c, d) < 0x1_0000 { CodeSmall(c, d); }
    copyStart, copyEnd := new int[256], new int[256];
    for j := 0 to 256
      invariant forall t: byte :: t < j ==>
                  copyStart[t] == Start(b, Code(t, ss)) && copyEnd[t] == Start(b, Code(t, ss) + 1) - 1
    {
      copyStart[j] := Clear(ftab[Code(j, ss)]);
      copyEnd[j] := Clear(ftab[Code(j, ss) + 1]) - 1;
    }
  }

  /** Marks every bucket of second character ss. */
  method MarkAll(ftab: array<nat>, ss: byte)
    requires ftab.Length == 0x1_0001
    modifies ftab
    ensures forall c: nat :: c <= 0x1_0000 ==> Clear(ftab[c]) == Clear(old(ftab[c]))
    ensures forall t: byte, d: byte :: IsSet(ftab[Code(t, d)]) <==> IsSet(old(ftab[Code(t, d)])) || d == ss
  {
    forall c: byte, d: byte ensures Code(c, d) < 0x1_0000 { CodeSmall(c, d); }
    forall c: byte, d: byte, e: byte, f: byte | Code(c, d) ==
      Code(e, f) ensures c == e && d == f { CodesApart(c, d, e, f); }
    hide Code;
    for j := 0 to 256
      invariant forall c: nat :: c <= 0x1_0000 ==> Clear(ftab[c]) == Clear(old(ftab[c]))
      invariant forall t: byte, d: byte :: IsSet(ftab[Code(t, d)]) <==>
                  IsSet(old(ftab[Code(t, d)])) || (d == ss && t < j)
    {
      ftab[Code(j, ss)] := SetMark(ftab[Code(j, ss)]);
    }
  }

  lemma CodesApart(c: byte, d: byte, e: byte, f: byte)
    requires Code(c, d) == Code(e, f)
    ensures c == e && d == f
  {
  }

  lemma StartRow(b: Block, rk: seq<nat>, ss: byte, done: seq<bool>, left: bool, p0: seq<nat>, p: seq<nat>,
                 ys: seq<nat>, pos: seq<int>, j: int)
    requires |b| > 0 && |p0| == |b| && |done| == 256 && !done[ss]
    requires Scanning(b, rk, ss, done, left, p0, p, Base(b, ss, left, p0), [], ys, pos)
    requires j == if left then BigStart(b, ss) else BigEnd(b, ss) - 1
    ensures AtRow(b, rk, ss, done, left, p0, p, [], ys, pos, j)
  {
    hide Scanning;
  }

  lemma BothScanned(b: Block, rk: seq<nat>, c: byte, done: seq<bool>, p0: seq<nat>, p1: seq<nat>, p: seq<nat>,
                    xs: seq<nat>, ys: seq<nat>, pos1: seq<int>, pos: seq<int>)
    requires |b| > 0 && |p0| == |b| && AllBelow(b, xs) && AllBelow(b, ys)
    requires Scanning(b, rk, c, done, true, p0, p1, Base(b, c, true, p0), xs, [], pos1)
             && |xs| == |Found(b, Base(b, c, true, p0), xs, c)|
    requires Scanning(b, rk, c, done, false, p0, p, Base(b, c, false, p0), ys, xs, pos)
             && |ys| == |Found(b, Base(b, c, false, p0), ys, c)|
    ensures Scanned(b, rk, c, done, p0, p, xs, ys, pos)
  {
    hide Fed, FillingAll, OthersKept, Base;
  }

  lemma BigBounds(c: byte)
    ensures 256 * c == Code(c, 0) && 256 * (c + 1) == Code(c, 255) + 1
  {
  }

  /** Step 2: scans the big bucket from both ends; every small bucket with its character in second
      place is then in order, and the two scans have met. */
  method ScanBucket(ptr: array<nat>, block: array<byte>, ftab: array<nat>, nblock: nat, bigDone: array<bool>,
                    ss: byte, ghost b: Block, ghost rk: seq<nat>)
    requires nblock == |b| == |rk| == ptr.Length >= 2 && nblock <= block.Length && block[..nblock] == b && Ranks(b, rk)
    requires bigDone.Length == 256 && !bigDone[ss] && ftab.Length == 0x1_0001
    requires ptr as object != block && ptr != ftab && ftab as object != block && bigDone as object != ptr
             && bigDone as object != ftab && bigDone as object != block
    requires Table(b, rk, ptr[..], ftab[..], bigDone[..]) && forall d: byte :: d != ss ==> IsSet(ftab[Code(ss, d)])
    modifies ptr, ftab
    ensures Table(b, rk, ptr[..], ftab[..], bigDone[..][ss := true])
  {
    ghost var p0, done, t0 := ptr[..], bigDone[..], ftab[..];
    TableGrouped(b, rk, p0, t0, done);
    OthersInOrder(b, rk, p0, t0, done, ss);
    BigBounds(ss);
    var copyStart, copyEnd := FillStarts(ftab, ss, b);
    ghost var ends := copyEnd[..];
    ScanStarts(b, rk, ss, done, p0, copyStart[..]);
    var first: int, last: int := Clear(ftab[256 * ss]), Clear(ftab[256 * (ss + 1)]) - 1;
    assert first == BigStart(b, ss) && last == BigEnd(b, ss) - 1;
    hide Table, Scanning, Scanned, Grouped, Ranks, BucketSorted, Code, Start, BigStart, BigEnd, Base, Found, AtRow,
         Starts;
    StartRow(b, rk, ss, done, true, p0, p0, [], copyStart[..], first);
    ghost var xs := Scan(ptr, block, nblock, bigDone, copyStart, first, ss, true, b, rk, p0, []);
    ghost var p1, pos1 := ptr[..], copyStart[..];
    ScanTurns(b, rk, ss, done, p0, p1, xs, pos1, ends);
    StartRow(b, rk, ss, done, false, p0, p1, xs, ends, last);
    assert copyEnd[..] == ends && ftab[..] == t0;
    ghost var ys := Scan(ptr, block, nblock, bigDone, copyEnd, last, ss, false, b, rk, p0, xs);
    BothScanned(b, rk, ss, done, p0, p1, ptr[..], xs, ys, pos1, copyEnd[..]);
    ScansMeet(b, rk, ss, done, p0, p1, ptr[..], xs, ys, pos1, copyEnd[..]);
    assert copyStart[ss] - 1 == copyEnd[ss] || (copyStart[ss] == 0 && copyEnd[ss] == nblock - 1);
    MarkAll(ftab, ss);
    ScanTable(b, rk, ss, done, p0, ptr[..], xs, ys, copyEnd[..], t0, ftab[..]);
  }

  // ---- caching the order of a big bucket ----

  ghost predicate ShortWords(q: seq<nat>) {
    forall i :: 0 <= i < |q| ==> q[i] < 0x1_0000
  }

  /** Gives one rotation its quadrant, behind the block too if it is one of the first. */
  method StoreQuadrant(quadrant: array<nat>, nblock: nat, a2update: nat, qVal: nat)
    requires a2update < nblock && nblock + N_OVERSHOOT <= quadrant.Length && qVal < 0x1_0000 && ShortWords(quadrant[..])
    modifies quadrant
    ensures quadrant[..] == Repeated(old(quadrant[..]), nblock, a2update, qVal) && ShortWords(quadrant[..])
  {
    quadrant[a2update] := qVal;
    if a2update < N_OVERSHOOT {
      quadrant[a2update + nblock] := qVal;
    }
  }

  method StoreQuadrants(ptr: array<nat>, quadrant: array<nat>, nblock: nat, bbStart: nat, bbSize: nat, shifts: nat,
                        ss: byte, ghost b: Block, ghost q0: seq<nat>)
    requires ptr != quadrant && nblock == |b| == ptr.Length && Grouped(b, ptr[..]) && ShortWords(quadrant[..])
    requires bbStart == BigStart(b, ss) && bbStart + bbSize == BigEnd(b, ss) && ShiftRight(bbSize, shifts) <= 65534
    requires Cached(b, ptr[..], ss, shifts, bbSize, q0, quadrant[..])
    modifies quadrant
    ensures Cached(b, ptr[..], ss, shifts, 0, q0, quadrant[..]) && ShortWords(quadrant[..])
  {
    ghost var p := ptr[..];
    hide Cached, Grouped, BigStart, BigEnd, ShiftRight, Code, ShortWords, Repeated;
    for j := bbSize downto 0
      invariant Cached(b, p, ss, shifts, j, q0, quadrant[..]) && ShortWords(quadrant[..])
    {
      CacheOne(b, p, ss, shifts, j, q0, quadrant[..]);
      ShiftMonotone(j, bbSize, shifts);
      CachedSize(b, p, ss, shifts, j + 1, q0, quadrant[..]);
      StoreQuadrant(quadrant, nblock, ptr[bbStart + j], ShiftRight(j, shifts));
    }
  }

  /** Step 3: ranks inside the big bucket, coarse enough for 16 bits, become its quadrants. */
  method UpdateQuadrants(ptr: array<nat>, quadrant: array<nat>, ftab: array<nat>, nblock: nat, ss: byte,
                         ghost b: Block, ghost rk: seq<nat>)
    returns (shifts: nat)
    requires ptr != quadrant && ftab != quadrant && nblock == |b| == |rk| == ptr.Length && ftab.Length == 0x1_0001
    requires Ranks(b, rk) && Grouped(b, ptr[..]) && Quadrants(b, rk, quadrant[..]) && Starts(b, ftab[..])
    requires forall d: byte :: BucketSorted(b, rk, ptr[..], Code(ss, d))
    requires ShortWords(quadrant[..])
    modifies quadrant
    ensures Quadrants(b, rk, quadrant[..]) && ShortWords(quadrant[..])
    ensures Cached(b, ptr[..], ss, shifts, 0, old(quadrant[..]), quadrant[..])
    ensures RemarkExactly(b, rk, ss, shifts, quadrant[..])
    ensures BigEnd(b, ss) - BigStart(b, ss) <= 65534 ==> shifts == 0
  {
    ghost var p, q0 := ptr[..], quadrant[..];
    BigBounds(ss);
    BigParts2(b, ss);
    var bbStart := Clear(ftab[256 * ss]);
    var bbSize: nat := Clear(ftab[256 * (ss + 1)]) - bbStart;
    assert bbStart == BigStart(b, ss) && bbStart + bbSize == BigEnd(b, ss);
    shifts := 0;
    while ShiftRight(bbSize, shifts) > 65534
      invariant quadrant[..] == q0 && (bbSize <= 65534 ==> shifts == 0)
      invariant shifts > 0 ==> ShiftRight(bbSize, shifts - 1) > 65534
      decreases ShiftRight(bbSize, shifts)
    {
      shifts := shifts + 1;
    }
    NothingCached(b, rk, p, ss, shifts, bbSize, q0);
    if shifts > 0 { LeastShift(bbSize, shifts); }
    hide Cached, RemarkExactly, Quadrants, Ranks, Grouped, BucketSorted, BigStart, BigEnd, Start, ShiftRight, Code,
         ShortWords;
    StoreQuadrants(ptr, quadrant, nblock, bbStart, bbSize, shifts, ss, b, q0);
    CachedTrue(b, rk, p, ss, shifts, q0, quadrant[..]);
    RemarkCached(b, rk, p, ss, shifts, q0, quadrant[..]);
  }

  lemma NothingCached(b: Block, rk: seq<nat>, p: seq<nat>, ss: byte, shifts: nat, r: nat, q: seq<nat>)
    requires Quadrants(b, rk, q) && |p| == |b| && BigStart(b, ss) + r == BigEnd(b, ss)
    ensures Cached(b, p, ss, shifts, r, q, q)
  {
    hide BigStart, BigEnd, ShiftRight;
  }

  lemma CachedSize(b: Block, p: seq<nat>, ss: byte, shifts: nat, r: nat, q0: seq<nat>, q: seq<nat>)
    requires Cached(b, p, ss, shifts, r, q0, q)
    ensures |q| == |q0| >= |b| + N_OVERSHOOT
  {
  }

  // ---- the sort ----

  /** With no bucket marked yet. */
  lemma TableStarts(b: Block, rk: seq<nat>, p: seq<nat>, ftab: seq<nat>, done: seq<bool>)
    requires 0 < |b| <= 900000 && |rk| == |b| && Leaves(b, 0, ftab) && Grouped(b, p)
    requires |done| == 256 && forall c: byte :: !done[c]
    ensures Table(b, rk, p, ftab, done)
  {
    hide Grouped, Start, Code;
    GroupedSize(b, p);
    SameNone(b);
    StartsAtEnds(b);
    forall c: byte, d: byte ensures Code(c, d) < 0x1_0000 { CodeSmall(c, d); }
    forall c: nat | c <= 0x1_0000 ensures ftab[c] == Start(b, c) && ftab[c] < SETMASK {}
  }

  lemma StartsAtEnds(b: Block)
    requires |b| > 0
    ensures Start(b, 0x1_0000) == |b|
  {
    UnderBounds(b, |b|);
  }

  /** With every bucket in order all rotations are. */
  lemma AllInOrder(b: Block, rk: seq<nat>, p: seq<nat>, ftab: seq<nat>, done: seq<bool>)
    requires Ranks(b, rk) && Table(b, rk, p, ftab, done) && forall c: byte :: done[c]
    ensures IsRotationOrder(b, p)
  {
    hide Start, Pair, BucketSorted;
    GroupedSize(b, p);
    forall i, j | 0 <= i < j < |p|
      ensures Cmp(b, p[i], p[j], |b|) <= 0
    {
      var t, d := CodeParts(Pair(b, p[i]));
      RowsOrdered(b, rk, p, i, j);
    }
  }

  /** The big buckets before place i of the running order are done, the others are not. */
  ghost predicate DoneUpTo(order: seq<nat>, done: seq<bool>, i: nat) {
    && AllBytes(order) && |done| == 256
    && forall k: nat :: k < 256 ==> (done[order[k]] <==> k < i)
  }

  lemma DoneNext(order: seq<nat>, done: seq<bool>, i: nat)
    requires DoneUpTo(order, done, i) && i < 256
    ensures order[i] < 256 && !done[order[i]] && DoneUpTo(order, done[order[i] := true], i + 1)
  {
  }

  lemma DoneAll(order: seq<nat>, done: seq<bool>)
    requires DoneUpTo(order, done, 256)
    ensures forall c: byte :: done[c]
  {
    forall c: byte ensures done[c] {
      var k := PermSurjective(order, 256, c);
    }
  }

  /** The rotations of a big bucket that is done are in order, bucket by bucket. */
  lemma BigSorted(b: Block, rk: seq<nat>, p: seq<nat>, ftab: seq<nat>, done: seq<bool>, ss: byte)
    requires Table(b, rk, p, ftab, done) && done[ss]
    ensures |rk| == |b| == |p| && forall d: byte :: BucketSorted(b, rk, p, Code(ss, d))
  {
    GroupedSize(b, p);
    hide Grouped, BucketSorted, Code, Start;
    forall d: byte ensures BucketSorted(b, rk, p, Code(ss, d)) { CodeSmall(ss, d); }
  }

  lemma ComparableBlock(b: Block, rk: seq<nat>, blk: seq<byte>, q: seq<nat>)
    requires Comparable(b, rk, blk, q)
    ensures Ranks(b, rk) && |blk| >= |b| > N_OVERSHOOT && blk[..|b|] == b && Quadrants(b, rk, q)
  {
    assert forall i: nat :: i < |b| ==> blk[i] == Char(b, i) == b[i];
  }

  /** One big bucket: quicksort what is left of it, scan it, and cache its order. */
  method SortBig(ptr: array<nat>, block: array<byte>, quadrant: array<nat>, ftab: array<nat>, nblock: nat,
                 bigDone: array<bool>, ss: byte, last: bool, budget: int,
                 ghost b: Block, ghost rk: seq<nat>)
    returns (left: int)
    requires Separate(ptr, block, quadrant, ftab) && nblock == |b| == |rk| == ptr.Length <= 900000
             && ftab.Length == 0x1_0001 && budget >= 0
    requires bigDone.Length == 256 && !bigDone[ss] && bigDone as object !in {ptr as object, block, quadrant, ftab}
    requires nblock > N_OVERSHOOT && Comparable(b, rk, block[..], quadrant[..]) && ShortWords(quadrant[..])
             && Table(b, rk, ptr[..], ftab[..], bigDone[..])
    modifies ptr, quadrant, ftab, bigDone
    ensures Thrifty(b, budget, left)
    ensures left >= 0 ==> Comparable(b, rk, block[..], quadrant[..]) && ShortWords(quadrant[..])
    ensures left >= 0 ==> bigDone[..] == old(bigDone[..])[ss := true] && Table(b, rk, ptr[..], ftab[..], bigDone[..])
    ensures left >= 0 && !last && 0 < BigEnd(b, ss) - BigStart(b, ss) <= 65534 ==>
              (Precedes(b, rk, ss, quadrant[..]) <==> !Repetition(b))
  {
    ghost var blk, done := block[..], bigDone[..];
    ComparableBlock(b, rk, blk, quadrant[..]);
    hide Comparable, Table, Code, ShortWords, Grouped, BucketSorted, Quadrants, Ranks, Precedes, Repetition, Thrifty;
    hide RemarkExactly, BigStart, BigEnd;
    left := SortOthers(ptr, block, quadrant, ftab, nblock, ss, budget, b, rk, done);
    if left < 0 { return; }
    ScanBucket(ptr, block, ftab, nblock, bigDone, ss, b, rk);
    bigDone[ss] := true;
    if !last {
      BigSorted(b, rk, ptr[..], ftab[..], bigDone[..], ss);
      TableGrouped(b, rk, ptr[..], ftab[..], bigDone[..]);
      var shifts := UpdateQuadrants(ptr, quadrant, ftab, nblock, ss, b, rk);
      StillComparable(b, rk, blk, quadrant[..]);
      if 0 < BigEnd(b, ss) - BigStart(b, ss) <= 65534 { RemarkUnshifted(b, rk, ss, quadrant[..]); }
    }
  }

  lemma StillComparable(b: Block, rk: seq<nat>, blk: seq<byte>, q: seq<nat>)
    requires Ranks(b, rk) && Quadrants(b, rk, q) && Overshot(b, blk)
    ensures Comparable(b, rk, blk, q)
  {
  }

  /** The radix sort, the overshoot and the cleared quadrants. */
  method Prepare(ptr: array<nat>, block: array<byte>, quadrant: array<nat>, ftab: array<nat>, nblock: nat,
                 ghost b: Block, ghost rk: seq<nat>)
    requires Separate(ptr, block, quadrant, ftab) && N_OVERSHOOT < nblock == |b| == |rk| == ptr.Length <= 900000
    requires nblock + N_OVERSHOOT <= block.Length && nblock + N_OVERSHOOT == quadrant.Length && ftab.Length == 0x1_0001
    requires block[..nblock] == b && Ranks(b, rk)
    modifies ptr, block, quadrant, ftab
    ensures Comparable(b, rk, block[..], quadrant[..]) && ShortWords(quadrant[..])
    ensures Leaves(b, 0, ftab[..]) && Grouped(b, ptr[..])
  {
    hide Ranks, Quadrants, Overshot, Counted, Leaves, Grouped;
    CountPairs(block, quadrant, ftab, nblock, b);
    CountedSize(b, ftab[..]);
    Overshoot(block, quadrant, nblock, b, rk);
    SumUp(ftab, b);
    Fill(ptr, block, ftab, nblock, b);
  }

  lemma CountedSize(b: Block, ftab: seq<nat>)
    requires |b| > 0 && Counted(b, 0, ftab)
    ensures |ftab| == 0x1_0001
  {
  }

  /** Sorts all rotations of the block, unless the budget runs out first; the block stays as it is. */
  method Sort(ptr: array<nat>, block: array<byte>, quadrant: array<nat>, ftab: array<nat>, nblock: nat, budget: int)
    returns (left: int)
    requires Separate(ptr, block, quadrant, ftab) && N_OVERSHOOT < nblock == ptr.Length <= 900000 && budget >= 0
    requires nblock + N_OVERSHOOT <= block.Length && nblock + N_OVERSHOOT == quadrant.Length && ftab.Length == 0x1_0001
    modifies ptr, block, quadrant, ftab
    ensures block[..nblock] == old(block[..nblock])
    ensures Thrifty(block[..nblock], budget, left)
    ensures left >= 0 ==> IsRotationOrder(block[..nblock], ptr[..])
  {
    ghost var b := block[..nblock];
    ghost var rk := RanksOf(b);
    RanksExist(b);
    Prepare(ptr, block, quadrant, ftab, nblock, b, rk);
    ComparableBlock(b, rk, block[..], quadrant[..]);
    ghost var blk := block[..];
    left := budget;
    var runningOrder := RunningOrder(BigFreqs(ftab[..]));
    var bigDone := new bool[256](_ => false);
    TableStarts(b, rk, ptr[..], ftab[..], bigDone[..]);
    ghost var order := runningOrder[..];
    assert DoneUpTo(order, bigDone[..], 0);
    ThriftyNothing(b, budget);
    hide Comparable, Table, ShortWords, DoneUpTo, IsRotationOrder, Ranks, Thrifty;
    for i := 0 to 256
      invariant 0 <= left && Thrifty(b, budget, left) && runningOrder[..] == order && block[..] == blk
      invariant DoneUpTo(order, bigDone[..], i)
      invariant Comparable(b, rk, block[..], quadrant[..]) && ShortWords(quadrant[..])
      invariant Table(b, rk, ptr[..], ftab[..], bigDone[..])
    {
      DoneNext(order, bigDone[..], i);
      var ss := runningOrder[i];
      assert !bigDone[ss];
      ghost var before := left;
      left := SortBig(ptr, block, quadrant, ftab, nblock, bigDone, ss, i == 255, left, b, rk);
      ThriftyBoth(b, budget, before, left);
      if left < 0 { return; }
    }
    DoneAll(order, bigDone[..]);
    AllInOrder(b, rk, ptr[..], ftab[..], bigDone[..]);
  }
}
