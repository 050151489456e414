/** Pointer scanning: from the order of one big bucket, the order of every small bucket whose second
    character is the same, without a comparison. */
module PointerScan {
  import opened Rotations
  import opened RotationRanks
  import opened SmallBuckets
  import opened ScanOrder
  import opened ScanSlots

  /** The next row the scan comes to holds the next rotation there is to scan. */
  lemma NextIs(b: Block, rk: seq<nat>, c: byte, done: seq<bool>, left: bool, p0: seq<nat>, p: seq<nat>, xs: seq<nat>,
               ys: seq<nat>, pos: seq<int>)
    requires |b| > 0 && Grouped(b, p0)
    requires Scanning(b, rk, c, done, left, p0, p, Base(b, c, left, p0), xs, ys, pos) && !done[c]
    requires |xs| < |Found(b, Base(b, c, left, p0), xs, c)|
    ensures var q := SlotAt(left, BigStart(b, c), BigEnd(b, c), |xs|);
            0 <= q < |b| && p[q] == Found(b, Base(b, c, left, p0), xs, c)[|xs|]
  {
    hide Placed, Start, Code, Fed, Listed;
    BigParts(b, c);
    var base := Base(b, c, left, p0);
    var q := SlotAt(left, BigStart(b, c), BigEnd(b, c), |xs|);
    assert Filling(b, c, c, left, p, Placed(b, xs, c), Placed(b, ys, c), pos[c]);
    if |xs| < |base| {
      BaseRow(b, c, left, p0, |xs|);
    } else {
      var r := |xs| - |base|;
      assert q == SlotAt(left, Start(b, Code(c, c)), Start(b, Code(c, c) + 1), r);
      assert Placed(b, xs, c)[r] == p[q];
    }
  }

  /** The scan has not caught up with what it found just as long as there is something to scan. */
  lemma CaughtUp(b: Block, rk: seq<nat>, c: byte, done: seq<bool>, left: bool, p0: seq<nat>, p: seq<nat>,
                 xs: seq<nat>, ys: seq<nat>, pos: seq<int>)
    requires |b| > 0 && |p0| == |b|
    requires Scanning(b, rk, c, done, left, p0, p, Base(b, c, left, p0), xs, ys, pos) && !done[c]
    ensures var q := SlotAt(left, BigStart(b, c), BigEnd(b, c), |xs|);
            |xs| < |Found(b, Base(b, c, left, p0), xs, c)| <==> if left then q < pos[c] else q > pos[c]
    ensures |Found(b, Base(b, c, left, p0), xs, c)| <= |b| && |xs| <= |Found(b, Base(b, c, left, p0), xs, c)|
    ensures |done| == |pos| == 256
  {
    hide Placed, Start, Code, Listed;
    BigParts(b, c);
    assert Filling(b, c, c, left, p, Placed(b, xs, c), Placed(b, ys, c), pos[c]);
  }

  lemma PutOthers(b: Block, c: byte, done: seq<bool>, p0: seq<nat>, p: seq<nat>, t: byte, q: nat, k: nat)
    requires Grouped(b, p0) && OthersKept(b, c, done, p0, p) && !done[t]
    requires Start(b, Code(t, c)) <= q < Start(b, Code(t, c) + 1) && q < |b|
    ensures OthersKept(b, c, done, p0, p[q := k])
  {
    hide Start, Pair;
    SlotTells(b, p0, q, Code(t, c));
    PairIs(b, p0[q]);
    assert b[p0[q]] == t && b[Wrap(|b|, p0[q] + 1)] == c;
  }

  /** One row scanned: the rotation before it goes to its bucket, unless that is done. */
  lemma ScanNext(b: Block, rk: seq<nat>, c: byte, done: seq<bool>, left: bool, p0: seq<nat>, p: seq<nat>,
                 base: seq<nat>, xs: seq<nat>, ys: seq<nat>, pos: seq<int>, y: nat)
    requires |b| > 0 && Ranks(b, rk) && Grouped(b, p0) && Once(b, rk, c, left, base)
    requires Scanning(b, rk, c, done, left, p0, p, base, xs, ys, pos)
    requires |xs| < |Found(b, base, xs, c)| && y == Found(b, base, xs, c)[|xs|]
    ensures y < |b| && |done| == |pos| == 256 && (!done[b[Pred(|b|, y)]] ==> 0 <= pos[b[Pred(|b|, y)]] < |b| == |p|)
    ensures var (p2, pos2) := Put(p, pos, done, left, b[Pred(|b|, y)], Pred(|b|, y));
            Scanning(b, rk, c, done, left, p0, p2, base, xs + [y], ys, pos2)
  {
    hide Placed, Start, Code, Listed, Ranks, Grouped, Once, Filling, OthersKept;
    OthersSize(b, c, done, p0, p);
    FedNext(b, rk, c, left, base, xs);
    ListedBelow(b, rk, c, left, xs + [y], |xs|);
    var k := Pred(|b|, y);
    var t := b[k];
    if !done[t] {
      PutFills(b, rk, c, done, left, p, xs, ys, pos, y, t);
      FillingPos(b, c, t, left, p, Placed(b, xs, t), Placed(b, ys, t), pos[t]);
      AnyRoom(b, rk, c, left, xs + [y], ys, t);
      PlacedNext(b, xs, y, t);
      FillOne(b, c, t, left, p, Placed(b, xs, t), Placed(b, ys, t), pos[t], k);
      PutOthers(b, c, done, p0, p, t, pos[t], k);
    }
    var (p2, pos2) := Put(p, pos, done, left, t, k);
    forall u: byte | !done[u]
      ensures Filling(b, c, u, left, p2, Placed(b, xs + [y], u), Placed(b, ys, u), pos2[u])
    {
      PutFills(b, rk, c, done, left, p, xs, ys, pos, y, u);
    }
  }

  lemma OthersSize(b: Block, c: byte, done: seq<bool>, p0: seq<nat>, p: seq<nat>)
    requires OthersKept(b, c, done, p0, p)
    ensures |done| == 256 && |p0| == |p| == |b| > 0
  {
  }

  lemma ListedBelow(b: Block, rk: seq<nat>, c: byte, left: bool, xs: seq<nat>, i: nat)
    requires Listed(b, rk, c, left, xs) && i < |xs|
    ensures xs[i] < |b| && AllBelow(b, xs)
  {
  }

  lemma FillingPos(b: Block, c: byte, t: byte, left: bool, p: seq<nat>, mine: seq<nat>, other: seq<nat>, pos: int)
    requires |b| > 0 && Filling(b, c, t, left, p, mine, other, pos)
    ensures Start(b, Code(t, c)) + |mine| + |other| <= Start(b, Code(t, c) + 1) <= |p|
  {
  }

  // ---- the end of both scans ----

  /** Both scans are over: xs from the left, ys from the right. */
  ghost predicate Scanned(b: Block, rk: seq<nat>, c: byte, done: seq<bool>, p0: seq<nat>, p: seq<nat>, xs: seq<nat>,
                          ys: seq<nat>, pos: seq<int>) {
    && |b| > 0 && |p0| == |b| && AllBelow(b, xs) && AllBelow(b, ys)
    && Fed(b, rk, c, true, Base(b, c, true, p0), xs) && |xs| == |Found(b, Base(b, c, true, p0), xs, c)|
    && Scanning(b, rk, c, done, false, p0, p, Base(b, c, false, p0), ys, xs, pos)
    && |ys| == |Found(b, Base(b, c, false, p0), ys, c)|
  }

  ghost predicate OnlyRun(b: Block, c: byte) {
    forall i :: 0 <= i < |b| ==> b[i] == c
  }

  /** A rotation that starts with c was scanned from one side or the other. */
  lemma ScannedAll(b: Block, rk: seq<nat>, c: byte, done: seq<bool>, p0: seq<nat>, p: seq<nat>, xs: seq<nat>,
                   ys: seq<nat>, pos: seq<int>, y: nat)
    requires Scanned(b, rk, c, done, p0, p, xs, ys, pos) && Grouped(b, p0) && !OnlyRun(b, c) && y < |b| && b[y] == c
    ensures y in xs || y in ys
  {
    hide Placed, Listed, Grouped;
    if Against(b, y, c, |b|) == 0 {
      forall i | 0 <= i < |b| ensures b[i] == c { AllSame(b, y, c, i); }
      assert false;
    } else {
      var left := Against(b, y, c, |b|) < 0;
      forall x: nat | x < |b| && b[x] == c && (if left then b[Wrap(|b|, x + 1)] < c else b[Wrap(|b|, x + 1)] > c)
        ensures x in Base(b, c, left, p0)
      {
        BaseAll(b, c, left, p0, x);
      }
      FedComplete(b, rk, c, left, Base(b, c, left, p0), if left then xs else ys, y, |b|);
    }
  }

  /** So everything that belongs in a bucket was placed, and the bucket is full. */
  lemma BucketFull(b: Block, rk: seq<nat>, c: byte, done: seq<bool>, p0: seq<nat>, p: seq<nat>, xs: seq<nat>,
                   ys: seq<nat>, pos: seq<int>, t: byte)
    requires |b| > 0 && Scanned(b, rk, c, done, p0, p, xs, ys, pos) && Ranks(b, rk) && Grouped(b, p0) && !OnlyRun(b, c)
    ensures Start(b, Code(t, c)) + |Placed(b, xs, t)| + |Placed(b, ys, t)| == Start(b, Code(t, c) + 1)
  {
    hide Placed, Listed, Grouped, Pair, Start, Code, Scanned, Ranks;
    ScannedParts(b, rk, c, done, p0, p, xs, ys, pos);
    AnyRoom(b, rk, c, true, xs, ys, t);
    var w := Placed(b, xs, t) + Placed(b, ys, t);
    forall k: nat | k < |b| && Pair(b, k) == Code(t, c)
      ensures k in w
    {
      PairTells(b, k, t, c);
      var y := Wrap(|b|, k + 1);
      ScannedAll(b, rk, c, done, p0, p, xs, ys, pos, y);
      WrapPred(|b|, k);
      if y in xs {
        var i :| 0 <= i < |xs| && xs[i] == y;
        PlacedIn(b, xs, t, i);
      } else {
        var i :| 0 <= i < |ys| && ys[i] == y;
        PlacedIn(b, ys, t, i);
      }
    }
    BucketRoom(b, w, Code(t, c));
  }

  lemma PairTells(b: Block, k: nat, t: byte, c: byte)
    requires k < |b| && Pair(b, k) == Code(t, c)
    ensures b[k] == t && b[Wrap(|b|, k + 1)] == c
  {
    PairIs(b, k);
  }

  lemma ScannedParts(b: Block, rk: seq<nat>, c: byte, done: seq<bool>, p0: seq<nat>, p: seq<nat>, xs: seq<nat>,
                     ys: seq<nat>, pos: seq<int>)
    requires Scanned(b, rk, c, done, p0, p, xs, ys, pos)
    ensures |b| > 0 && AllBelow(b, xs) && AllBelow(b, ys) && Listed(b, rk, c, true, xs) && Listed(b, rk, c, false, ys)
    ensures FillingAll(b, c, done, false, p, ys, xs, pos) && OthersKept(b, c, done, p0, p)
    ensures xs == [] && ys == [] ==> p == p0
  {
  }

  // ---- what the buckets hold then ----

  /** The slot holds a member placed by one scan or the other. */
  lemma FullSlot(b: Block, c: byte, t: byte, p: seq<nat>, u: seq<nat>, w: seq<nat>, pos: int, q: nat)
    requires |b| > 0 && Filling(b, c, t, false, p, w, u, pos)
    requires Start(b, Code(t, c)) + |u| + |w| == Start(b, Code(t, c) + 1)
             && Start(b, Code(t, c)) <= q < Start(b, Code(t, c) + 1)
    ensures q < |p|
    ensures q < Start(b, Code(t, c)) + |u| ==> p[q] == u[q - Start(b, Code(t, c))]
    ensures q >= Start(b, Code(t, c)) + |u| ==>
              0 <= Start(b, Code(t, c) + 1) - 1 - q < |w| && p[q] == w[Start(b, Code(t, c) + 1) - 1 - q]
  {
    var s, e := Start(b, Code(t, c)), Start(b, Code(t, c) + 1);
    hide Start, Code;
    if q < s + |u| {
      assert u[q - s] == p[SlotAt(true, s, e, q - s)];
    } else {
      assert w[e - 1 - q] == p[SlotAt(false, s, e, e - 1 - q)];
    }
  }

  /** A member found from the left comes before one found from the right. */
  lemma LeftFirst(b: Block, rk: seq<nat>, c: byte, k: nat, m: nat)
    requires Ranks(b, rk) && k < |b| && m < |b| && b[k] == b[m]
    requires OnSide(b, c, true, Wrap(|b|, k + 1)) && OnSide(b, c, false, Wrap(|b|, m + 1))
    ensures rk[k] <= rk[m] && k != m
  {
    AgainstOrder(b, Wrap(|b|, k + 1), Wrap(|b|, m + 1), c, |b|);
    OrderOneBack(b, rk, k, m);
  }

  /** Two slots of a full bucket. */
  lemma FullPair(b: Block, rk: seq<nat>, c: byte, t: byte, p: seq<nat>, xs: seq<nat>, ys: seq<nat>, pos: int, i: nat,
                 j: nat)
    requires |b| > 0 && |rk| == |b| && Ranks(b, rk) && Listed(b, rk, c, true, xs) && Listed(b, rk, c, false, ys)
             && AllBelow(b, xs) && AllBelow(b, ys)
    requires Filling(b, c, t, false, p, Placed(b, ys, t), Placed(b, xs, t), pos)
    requires Start(b, Code(t, c)) + |Placed(b, xs, t)| + |Placed(b, ys, t)| == Start(b, Code(t, c) + 1)
    requires Start(b, Code(t, c)) <= i < j < Start(b, Code(t, c) + 1)
    ensures j < |p| && p[i] < |b| && p[j] < |b| && Pair(b, p[i]) == Pair(b, p[j]) == Code(t, c)
    ensures p[i] != p[j] && rk[p[i]] <= rk[p[j]]
  {
    hide Placed, Start, Code, Pair, OnSide, Ranks;
    var u, w := Placed(b, xs, t), Placed(b, ys, t);
    var s, e := Start(b, Code(t, c)), Start(b, Code(t, c) + 1);
    FullSlot(b, c, t, p, u, w, pos, i);
    FullSlot(b, c, t, p, u, w, pos, j);
    PlacedListed(b, rk, c, true, xs, t);
    PlacedListed(b, rk, c, false, ys, t);
    if i < s + |u| {
      PlacedMembers(b, rk, c, true, xs, t, i - s);
    } else {
      PlacedMembers(b, rk, c, false, ys, t, e - 1 - i);
    }
    if j < s + |u| {
      PlacedMembers(b, rk, c, true, xs, t, j - s);
    } else {
      PlacedMembers(b, rk, c, false, ys, t, e - 1 - j);
    }
    if j < s + |u| {
      assert InDirection(rk, true, u[i - s], u[j - s]);
    } else if i >= s + |u| {
      assert InDirection(rk, false, w[e - 1 - j], w[e - 1 - i]);
    } else {
      LeftFirst(b, rk, c, p[i], p[j]);
    }
  }

  lemma FullOne(b: Block, rk: seq<nat>, c: byte, t: byte, p: seq<nat>, xs: seq<nat>, ys: seq<nat>, pos: int, i: nat)
    requires |b| > 0 && |rk| == |b| && Listed(b, rk, c, true, xs) && Listed(b, rk, c, false, ys) && AllBelow(b, xs)
             && AllBelow(b, ys)
    requires Filling(b, c, t, false, p, Placed(b, ys, t), Placed(b, xs, t), pos)
    requires Start(b, Code(t, c)) + |Placed(b, xs, t)| + |Placed(b, ys, t)| == Start(b, Code(t, c) + 1)
    requires Start(b, Code(t, c)) <= i < Start(b, Code(t, c) + 1)
    ensures i < |p| && p[i] < |b| && Pair(b, p[i]) == Code(t, c)
  {
    hide Placed, Start, Code, Pair, OnSide;
    var u, w := Placed(b, xs, t), Placed(b, ys, t);
    var s, e := Start(b, Code(t, c)), Start(b, Code(t, c) + 1);
    FullSlot(b, c, t, p, u, w, pos, i);
    if i < s + |u| {
      PlacedMembers(b, rk, c, true, xs, t, i - s);
    } else {
      PlacedMembers(b, rk, c, false, ys, t, e - 1 - i);
    }
  }

  /** Is the slot in a bucket that was filled? */
  predicate ToFill(b: Block, c: byte, done: seq<bool>, x: nat)
    requires x < |b| && |done| == 256
  {
    b[Wrap(|b|, x + 1)] == c && !done[b[x]]
  }

  /** A slot keeps its pair. */
  lemma PairKept(b: Block, rk: seq<nat>, c: byte, done: seq<bool>, p0: seq<nat>, p: seq<nat>, xs: seq<nat>,
                 ys: seq<nat>, pos: seq<int>, q: nat)
    requires |b| > 0 && |rk| == |b| && Scanned(b, rk, c, done, p0, p, xs, ys, pos) && Ranks(b, rk) && Grouped(b, p0)
             && !OnlyRun(b, c) && q < |b|
    ensures |p| == |b| && p[q] < |b| && Pair(b, p[q]) == Pair(b, p0[q]) && |done| == 256
    ensures !ToFill(b, c, done, p0[q]) ==> p[q] == p0[q]
  {
    hide Placed, Start, Code, Pair, Scanned, Listed, Ranks, Grouped;
    GroupedRow(b, p0, q);
    ScannedParts(b, rk, c, done, p0, p, xs, ys, pos);
    if ToFill(b, c, done, p0[q]) {
      var t := b[p0[q]];
      PairIs(b, p0[q]);
      BucketFull(b, rk, c, done, p0, p, xs, ys, pos, t);
      FullOne(b, rk, c, t, p, xs, ys, pos[t], q);
    }
  }

  lemma GroupedRow(b: Block, p: seq<nat>, q: nat)
    requires Grouped(b, p) && q < |b|
    ensures |p| == |b| && p[q] < |b| && Start(b, Pair(b, p[q])) <= q < Start(b, Pair(b, p[q]) + 1)
  {
  }

  lemma DistinctRows(b: Block, p: seq<nat>, i: nat, j: nat)
    requires Grouped(b, p) && i < j < |b|
    ensures p[i] != p[j]
  {
  }

  /** Rows i and j of one filled bucket. */
  lemma FilledPair(b: Block, rk: seq<nat>, c: byte, done: seq<bool>, p0: seq<nat>, p: seq<nat>, xs: seq<nat>,
                   ys: seq<nat>, pos: seq<int>, t: byte, i: nat, j: nat)
    requires |b| > 0 && |rk| == |b| && Scanned(b, rk, c, done, p0, p, xs, ys, pos) && Ranks(b, rk) && Grouped(b, p0)
             && !OnlyRun(b, c)
    requires |done| == 256 && !done[t] && Start(b, Code(t, c)) <= i < j < Start(b, Code(t, c) + 1)
    ensures j < |p| && p[i] < |b| && p[j] < |b| && p[i] != p[j] && rk[p[i]] <= rk[p[j]]
  {
    hide Placed, Start, Code, Pair, Scanned, Listed, Ranks, Grouped;
    ScannedParts(b, rk, c, done, p0, p, xs, ys, pos);
    BucketFull(b, rk, c, done, p0, p, xs, ys, pos, t);
    FullPair(b, rk, c, t, p, xs, ys, pos[t], i, j);
  }

  /** The rotations are all there still, each in its bucket. */
  lemma StillGrouped(b: Block, rk: seq<nat>, c: byte, done: seq<bool>, p0: seq<nat>, p: seq<nat>, xs: seq<nat>,
                     ys: seq<nat>, pos: seq<int>)
    requires |b| > 0 && |rk| == |b| && Scanned(b, rk, c, done, p0, p, xs, ys, pos) && Ranks(b, rk) && Grouped(b, p0)
             && !OnlyRun(b, c)
    ensures Grouped(b, p)
  {
    hide Placed, Start, Code, Pair, Scanned, Listed, Ranks;
    ScannedParts(b, rk, c, done, p0, p, xs, ys, pos);
    forall q: nat | q < |b|
      ensures p[q] < |b| && Pair(b, p[q]) == Pair(b, p0[q])
    {
      PairKept(b, rk, c, done, p0, p, xs, ys, pos, q);
    }
    forall i, j | 0 <= i < j < |b|
      ensures p[i] != p[j]
    {
      RowsDiffer(b, rk, c, done, p0, p, xs, ys, pos, i, j);
    }
  }

  lemma RowsDiffer(b: Block, rk: seq<nat>, c: byte, done: seq<bool>, p0: seq<nat>, p: seq<nat>, xs: seq<nat>,
                   ys: seq<nat>, pos: seq<int>, i: nat, j: nat)
    requires |b| > 0 && |rk| == |b| && Scanned(b, rk, c, done, p0, p, xs, ys, pos) && Ranks(b, rk) && Grouped(b, p0)
             && !OnlyRun(b, c)
    requires i < j < |b|
    ensures |p| == |b| && p[i] != p[j]
  {
    hide Placed, Start, Code, Pair, Scanned, Listed, Ranks, Grouped, OthersKept;
    ScannedParts(b, rk, c, done, p0, p, xs, ys, pos);
    PairKept(b, rk, c, done, p0, p, xs, ys, pos, i);
    PairKept(b, rk, c, done, p0, p, xs, ys, pos, j);
    GroupedRow(b, p0, i);
    GroupedRow(b, p0, j);
    DistinctRows(b, p0, i, j);
    PairIs(b, p0[i]);
    PairIs(b, p0[j]);
    if Pair(b, p0[i]) == Pair(b, p0[j]) {
      PairTells(b, p0[j], b[p0[i]], b[Wrap(|b|, p0[i] + 1)]);
      if ToFill(b, c, done, p0[i]) {
        FilledPair(b, rk, c, done, p0, p, xs, ys, pos, b[p0[i]], i, j);
      }
    }
  }

  /** Every bucket of the scanned second character is in order. */
  lemma FilledSorted(b: Block, rk: seq<nat>, c: byte, done: seq<bool>, p0: seq<nat>, p: seq<nat>, xs: seq<nat>,
                     ys: seq<nat>, pos: seq<int>, t: byte)
    requires |b| > 0 && |rk| == |b| && Scanned(b, rk, c, done, p0, p, xs, ys, pos) && Ranks(b, rk) && Grouped(b, p0)
             && !OnlyRun(b, c)
    requires |done| == 256 && !done[t] && |p| == |b|
    ensures BucketSorted(b, rk, p, Code(t, c))
  {
    hide Placed, Start, Code, Pair, Scanned, Listed, Ranks, Grouped;
    forall i, j | Start(b, Code(t, c)) <= i < j < Start(b, Code(t, c) + 1) && p[i] < |b| && p[j] < |b|
      ensures rk[p[i]] <= rk[p[j]]
    {
      FilledPair(b, rk, c, done, p0, p, xs, ys, pos, t, i, j);
    }
  }

  /** The other buckets are as they were. */
  lemma OthersSorted(b: Block, rk: seq<nat>, c: byte, done: seq<bool>, p0: seq<nat>, p: seq<nat>, t: byte, d: byte)
    requires |b| > 0 && |rk| == |b| && OthersKept(b, c, done, p0, p) && Grouped(b, p0) && (d != c || done[t])
    requires BucketSorted(b, rk, p0, Code(t, d))
    ensures BucketSorted(b, rk, p, Code(t, d))
  {
    hide Start, Code, Pair;
    BucketsApart(b, Code(t, d), Code(t, d) + 1);
    forall i, j | Start(b, Code(t, d)) <= i < j < Start(b, Code(t, d) + 1) && p[i] < |b| && p[j] < |b|
      ensures rk[p[i]] <= rk[p[j]]
    {
      SlotTells(b, p0, i, Code(t, d));
      SlotTells(b, p0, j, Code(t, d));
      PairTells(b, p0[i], t, d);
      PairTells(b, p0[j], t, d);
    }
  }

  // ---- a block that is one run ----

  lemma {:induction false} RunCmp(b: Block, x: nat, y: nat, c: byte, h: nat)
    requires |b| > 0 && OnlyRun(b, c)
    ensures Cmp(b, x, y, h) == 0
    decreases h
  {
    CharIs(b, x, c);
    CharIs(b, y, c);
    if h > 0 { RunCmp(b, x + 1, y + 1, c, h - 1); }
  }

  lemma RunListsNothing(b: Block, rk: seq<nat>, c: byte, left: bool, xs: seq<nat>)
    requires OnlyRun(b, c) && Listed(b, rk, c, left, xs)
    ensures xs == []
  {
    if xs != [] { RunAgainst(b, xs[0], c, |b|); }
  }

  /** Nothing moves then, and everything is in order as it is. */
  lemma RunSorted(b: Block, rk: seq<nat>, c: byte, done: seq<bool>, p0: seq<nat>, p: seq<nat>, xs: seq<nat>,
                  ys: seq<nat>, pos: seq<int>, code: nat)
    requires |b| > 0 && |rk| == |b| && Scanned(b, rk, c, done, p0, p, xs, ys, pos) && Ranks(b, rk) && OnlyRun(b, c)
             && |p| == |b|
    ensures p == p0 && BucketSorted(b, rk, p, code)
  {
    hide Placed, Start, Scanned, OnlyRun, Listed, OthersKept;
    ScannedParts(b, rk, c, done, p0, p, xs, ys, pos);
    RunListsNothing(b, rk, c, true, xs);
    RunListsNothing(b, rk, c, false, ys);
    forall i, j | Start(b, code) <= i < j < Start(b, code + 1) && p[i] < |b| && p[j] < |b|
      ensures rk[p[i]] <= rk[p[j]]
    {
      RunCmp(b, p[i], p[j], c, |b|);
    }
  }

  // ---- the two scans ----

  lemma ScanStarts(b: Block, rk: seq<nat>, c: byte, done: seq<bool>, p: seq<nat>, pos: seq<int>)
    requires |b| >= 2 && |rk| == |b| && Ranks(b, rk) && Grouped(b, p) && |done| == |pos| == 256
    requires forall d: byte :: d != c ==> BucketSorted(b, rk, p, Code(c, d))
    requires forall t: byte :: pos[t] == Start(b, Code(t, c))
    ensures Scanning(b, rk, c, done, true, p, p, Base(b, c, true, p), [], [], pos)
  {
    hide Start, Code, Ranks, Once;
    BaseOnce(b, rk, c, true, p);
    FedStart(b, rk, c, true, Base(b, c, true, p));
    forall t: byte | !done[t]
      ensures Filling(b, c, t, true, p, Placed(b, [], t), Placed(b, [], t), pos[t])
    {
      BucketsApart(b, Code(t, c), Code(t, c) + 1);
    }
  }

  /** From the end of the scan from the left to the start of the one from the right. */
  lemma ScanTurns(b: Block, rk: seq<nat>, c: byte, done: seq<bool>, p0: seq<nat>, p: seq<nat>, xs: seq<nat>,
                  pos: seq<int>, pos2: seq<int>)
    requires |b| >= 2 && |rk| == |b| && Ranks(b, rk) && Grouped(b, p0) && |done| == |pos2| == 256
    requires forall d: byte :: d != c ==> BucketSorted(b, rk, p0, Code(c, d))
    requires Scanning(b, rk, c, done, true, p0, p, Base(b, c, true, p0), xs, [], pos)
    requires forall t: byte :: pos2[t] == Start(b, Code(t, c) + 1) - 1
    ensures Scanning(b, rk, c, done, false, p0, p, Base(b, c, false, p0), [], xs, pos2)
  {
    hide Start, Code, Ranks, Once, Listed, OthersKept;
    BaseOnce(b, rk, c, false, p0);
    FedStart(b, rk, c, false, Base(b, c, false, p0));
    forall t: byte | !done[t]
      ensures Filling(b, c, t, false, p, Placed(b, [], t), Placed(b, xs, t), pos2[t])
    {
      assert Filling(b, c, t, true, p, Placed(b, xs, t), Placed(b, [], t), pos[t]);
    }
  }

  /** The position before, round the circle. */
  function StepBack(n: nat, x: nat): (k: nat)
    requires x < n
    ensures k == Pred(n, x)
  {
    var k := x - 1;
    if k < 0 then k + n else k
  }

  lemma ScanningBelow(b: Block, rk: seq<nat>, c: byte, done: seq<bool>, left: bool, p0: seq<nat>, p: seq<nat>,
                      base: seq<nat>, xs: seq<nat>, ys: seq<nat>, pos: seq<int>)
    requires Scanning(b, rk, c, done, left, p0, p, base, xs, ys, pos)
    ensures AllBelow(b, xs) && AllBelow(b, ys) && |b| > 0 && |p| == |p0| == |b|
  {
  }

  /** A scan seen from its row counter: at row j, with the list of what was scanned. */
  ghost predicate AtRow(b: Block, rk: seq<nat>, c: byte, done: seq<bool>, left: bool, p0: seq<nat>, p: seq<nat>,
                        xs: seq<nat>, ys: seq<nat>, pos: seq<int>, j: int)
  {
    && |b| > 0 && |p0| == |b| && |done| == 256 && !done[c]
    && Scanning(b, rk, c, done, left, p0, p, Base(b, c, left, p0), xs, ys, pos)
    && j == SlotAt(left, BigStart(b, c), BigEnd(b, c), |xs|)
  }

  predicate RowsLeft(left: bool, j: int, pos: int) {
    if left then j < pos else j > pos
  }

  /** What a turn of either loop does, in full. */
  lemma RowScanned(b: Block, rk: seq<nat>, c: byte, done: seq<bool>, left: bool, p0: seq<nat>, p: seq<nat>,
                   xs: seq<nat>, ys: seq<nat>, pos: seq<int>, j: int)
    requires |b| >= 2 && |rk| == |b| && Ranks(b, rk) && Grouped(b, p0)
    requires forall d: byte :: d != c ==> BucketSorted(b, rk, p0, Code(c, d))
    requires AtRow(b, rk, c, done, left, p0, p, xs, ys, pos, j) && |pos| == 256 && RowsLeft(left, j, pos[c])
    ensures 0 <= j < |p| == |b| && p[j] < |b| && |done| == 256 && |xs| < |b|
    ensures !done[b[Pred(|b|, p[j])]] ==> 0 <= pos[b[Pred(|b|, p[j])]] < |p|
    ensures var (p2, pos2) := Put(p, pos, done, left, b[Pred(|b|, p[j])], Pred(|b|, p[j]));
            AtRow(b, rk, c, done, left, p0, p2, xs + [p[j]], ys, pos2, if left then j + 1 else j - 1)
  {
    hide Scanning, Ranks, Grouped, Once, Found, BucketSorted, Base, BigStart, BigEnd, Start, Code;
    var base := Base(b, c, left, p0);
    ScanningBelow(b, rk, c, done, left, p0, p, base, xs, ys, pos);
    BaseOnce(b, rk, c, left, p0);
    CaughtUp(b, rk, c, done, left, p0, p, xs, ys, pos);
    NextIs(b, rk, c, done, left, p0, p, xs, ys, pos);
    ScanNext(b, rk, c, done, left, p0, p, base, xs, ys, pos, p[j]);
  }

  lemma RowsOver(b: Block, rk: seq<nat>, c: byte, done: seq<bool>, left: bool, p0: seq<nat>, p: seq<nat>,
                 xs: seq<nat>, ys: seq<nat>, pos: seq<int>, j: int)
    requires AtRow(b, rk, c, done, left, p0, p, xs, ys, pos, j) && |pos| == 256 && !RowsLeft(left, j, pos[c])
    ensures AllBelow(b, xs) && |xs| == |Found(b, Base(b, c, left, p0), xs, c)|
  {
    hide Scanning, Base, BigStart, BigEnd, Found;
    ScanningBelow(b, rk, c, done, left, p0, p, Base(b, c, left, p0), xs, ys, pos);
    CaughtUp(b, rk, c, done, left, p0, p, xs, ys, pos);
  }

  /** Sends the predecessor of rotation y to its bucket, unless that bucket is done. */
  method Send(ptr: array<nat>, pos: array<int>, bigDone: array<bool>, block: array<byte>, nblock: nat, left: bool,
              y: nat, ghost b: Block)
    requires nblock == |b| <= block.Length && block[..nblock] == b && y < nblock
    requires ptr as object != pos && ptr as object != bigDone && pos as object != bigDone && ptr as object != block
             && pos as object != block
    requires pos.Length == bigDone.Length == 256
             && (!bigDone[b[Pred(|b|, y)]] ==> 0 <= pos[b[Pred(|b|, y)]] < ptr.Length)
    modifies ptr, pos
    ensures (ptr[..], pos[..]) == Put(old(ptr[..]), old(pos[..]), bigDone[..], left, b[Pred(|b|, y)], Pred(|b|, y))
  {
    var k := StepBack(nblock, y);
    assert b[k] == block[k];
    var c1 := block[k];
    if !bigDone[c1] {
      ptr[pos[c1]] := k;
      pos[c1] := if left then pos[c1] + 1 else pos[c1] - 1;
    }
  }

  /** The working arrays are apart. */
  ghost predicate Apart(ptr: array<nat>, block: array<byte>, bigDone: array<bool>, pos: array<int>) {
    && ptr as object != block && ptr as object != bigDone && ptr as object != pos
    && pos as object != bigDone && pos as object != block && block as object != bigDone
  }

  /** Scans rows upwards from the start of the big bucket, or downwards from its end, while there are
      rows filled in. */
  method Scan(ptr: array<nat>, block: array<byte>, nblock: nat, bigDone: array<bool>, pos: array<int>, start: int,
              c: byte, left: bool,
              ghost b: Block, ghost rk: seq<nat>, ghost p0: seq<nat>, ghost ys: seq<nat>)
    returns (ghost xs: seq<nat>)
    requires nblock == |b| == |rk| >= 2 && nblock <= block.Length && block[..nblock] == b && Ranks(b, rk)
             && Grouped(b, p0)
    requires Apart(ptr, block, bigDone, pos) && pos.Length == bigDone.Length == 256
    requires forall d: byte :: d != c ==> BucketSorted(b, rk, p0, Code(c, d))
    requires AtRow(b, rk, c, bigDone[..], left, p0, ptr[..], [], ys, pos[..], start)
    modifies ptr, pos
    ensures |b| > 0 && |p0| == |b| && AllBelow(b, xs) && |xs| == |Found(b, Base(b, c, left, p0), xs, c)|
    ensures Scanning(b, rk, c, bigDone[..], left, p0, ptr[..], Base(b, c, left, p0), xs, ys, pos[..])
  {
    ghost var done := bigDone[..];
    hide Scanning, Ranks, Grouped, Found, BucketSorted, Base, Code, AtRow, Put;
    xs := [];
    var j := start;
    while RowsLeft(left, j, pos[c])
      invariant bigDone[..] == done && block[..nblock] == b
      invariant AtRow(b, rk, c, done, left, p0, ptr[..], xs, ys, pos[..], j) && |xs| <= nblock
      decreases nblock - |xs|
    {
      RowScanned(b, rk, c, done, left, p0, ptr[..], xs, ys, pos[..], j);
      ghost var y := ptr[j];
      Send(ptr, pos, bigDone, block, nblock, left, ptr[j], b);
      xs := xs + [y];
      j := if left then j + 1 else j - 1;
    }
    RowsOver(b, rk, c, done, left, p0, ptr[..], xs, ys, pos[..], j);
    AtRowScans(b, rk, c, done, left, p0, ptr[..], xs, ys, pos[..], j);
  }

  lemma AtRowScans(b: Block, rk: seq<nat>, c: byte, done: seq<bool>, left: bool, p0: seq<nat>, p: seq<nat>,
                   xs: seq<nat>, ys: seq<nat>, pos: seq<int>, j: int)
    requires AtRow(b, rk, c, done, left, p0, p, xs, ys, pos, j)
    ensures |b| > 0 && |p0| == |b| && Scanning(b, rk, c, done, left, p0, p, Base(b, c, left, p0), xs, ys, pos)
  {
  }
}
