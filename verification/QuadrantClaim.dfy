/** What the cached quadrants say of equal rotations.  The main sorter needs that a smaller quadrant
    means a rotation that is not greater; the remark beside the code says that it means one that
    comes before.  This module says exactly when that holds of a bucket just cached. */
module QuadrantClaim {
  import opened Rotations
  import opened Permutations
  import opened RotationRanks
  import opened SmallBuckets
  import opened ScanOrder
  import opened ScanSlots
  import opened QuadrantCache
  import opened Repetitions
  import opened EqualRuns
  import opened Powers
  import opened Products
  import LowBits

  /** A smaller quadrant means a rotation that comes before, among those of ss. */
  ghost predicate Precedes(b: Block, rk: seq<nat>, ss: byte, q: seq<nat>)
    requires |rk| == |b| <= |q|
  {
    forall x: nat, y: nat :: x < |b| && y < |b| && b[x] == ss == b[y] && q[x] < q[y] ==> rk[x] < rk[y]
  }

  /** Equal rotations of the bucket are in rows that the shift does not tell apart. */
  ghost predicate EqualShare(b: Block, rk: seq<nat>, p: seq<nat>, ss: byte, shifts: nat)
    requires |b| > 0 && |rk| == |b| == |p| && IsPerm(p, |b|)
  {
    forall i: nat, j: nat :: BigStart(b, ss) <= i < j < BigEnd(b, ss) && j < |b| && rk[p[i]] == rk[p[j]] ==>
      ShiftRight(i - BigStart(b, ss), shifts) == ShiftRight(j - BigStart(b, ss), shifts)
  }

  /** What the last step leaves of a big bucket. */
  ghost predicate JustCached(b: Block, rk: seq<nat>, p: seq<nat>, ss: byte, shifts: nat, q0: seq<nat>, q: seq<nat>) {
    && Ranks(b, rk) && Grouped(b, p) && |rk| == |b| == |p| && Cached(b, p, ss, shifts, 0, q0, q)
    && forall d: byte :: BucketSorted(b, rk, p, Code(ss, d))
  }

  lemma RowQuadrant(b: Block, rk: seq<nat>, p: seq<nat>, ss: byte, shifts: nat, q0: seq<nat>, q: seq<nat>, i: nat)
    requires JustCached(b, rk, p, ss, shifts, q0, q) && i < |b| && BigStart(b, ss) <= i < BigEnd(b, ss)
    ensures p[i] < |b| <= |q| && b[p[i]] == ss && q[p[i]] == ShiftRight(i - BigStart(b, ss), shifts)
  {
    hide Start, Pair, BigStart, BigEnd, ShiftRight, BucketSorted, Ranks;
    BigRow(b, p, ss, i);
  }

  /** The row of a rotation of the bucket. */
  lemma RowOf(b: Block, rk: seq<nat>, p: seq<nat>, ss: byte, shifts: nat, q0: seq<nat>, q: seq<nat>, x: nat)
    returns (i: nat)
    requires JustCached(b, rk, p, ss, shifts, q0, q) && x < |b| && b[x] == ss
    ensures i < |b| && p[i] == x && BigStart(b, ss) <= i < BigEnd(b, ss)
    ensures |b| <= |q| && q[x] == ShiftRight(i - BigStart(b, ss), shifts)
  {
    hide Start, Pair, BigStart, BigEnd, ShiftRight, BucketSorted, Ranks;
    i := PermSurjective(p, |b|, x);
    BigRow(b, p, ss, i);
  }

  /** The remark is right about a bucket exactly when equal rotations share their quadrants. */
  lemma PrecedesShares(b: Block, rk: seq<nat>, p: seq<nat>, ss: byte, shifts: nat, q0: seq<nat>, q: seq<nat>)
    requires JustCached(b, rk, p, ss, shifts, q0, q)
    ensures |b| > 0 && |b| <= |q| && |rk| == |b| == |p| && IsPerm(p, |b|)
    ensures Precedes(b, rk, ss, q) <==> EqualShare(b, rk, p, ss, shifts)
  {
    hide Start, Pair, BigStart, BigEnd, ShiftRight, BucketSorted, Ranks, Precedes, EqualShare;
    if Precedes(b, rk, ss, q) { ThenShared(b, rk, p, ss, shifts, q0, q); }
    if EqualShare(b, rk, p, ss, shifts) { ThenPrecedes(b, rk, p, ss, shifts, q0, q); }
  }

  lemma ThenShared(b: Block, rk: seq<nat>, p: seq<nat>, ss: byte, shifts: nat, q0: seq<nat>, q: seq<nat>)
    requires JustCached(b, rk, p, ss, shifts, q0, q) && |b| <= |q| && IsPerm(p, |b|) && Precedes(b, rk, ss, q)
    ensures EqualShare(b, rk, p, ss, shifts)
  {
    hide Start, Pair, BigStart, BigEnd, ShiftRight, BucketSorted, Ranks, JustCached;
    assert |b| > 0 && |rk| == |b| == |p| by { JustSizes(b, rk, p, ss, shifts, q0, q); }
    var bs := BigStart(b, ss);
    forall i: nat, j: nat | bs <= i < j < BigEnd(b, ss) && j < |b| && rk[p[i]] == rk[p[j]]
      ensures ShiftRight(i - bs, shifts) == ShiftRight(j - bs, shifts)
    {
      RowQuadrant(b, rk, p, ss, shifts, q0, q, i);
      RowQuadrant(b, rk, p, ss, shifts, q0, q, j);
      ShiftMonotone(i - bs, j - bs, shifts);
    }
  }

  lemma JustSizes(b: Block, rk: seq<nat>, p: seq<nat>, ss: byte, shifts: nat, q0: seq<nat>, q: seq<nat>)
    requires JustCached(b, rk, p, ss, shifts, q0, q)
    ensures |b| > 0 && |rk| == |b| == |p| && |b| <= |q| && IsPerm(p, |b|)
  {
  }

  lemma ThenPrecedes(b: Block, rk: seq<nat>, p: seq<nat>, ss: byte, shifts: nat, q0: seq<nat>, q: seq<nat>)
    requires JustCached(b, rk, p, ss, shifts, q0, q) && |b| <= |q| && IsPerm(p, |b|) && |b| > 0 && |rk| == |b| == |p|
    requires EqualShare(b, rk, p, ss, shifts)
    ensures Precedes(b, rk, ss, q)
  {
    hide Start, Pair, BigStart, BigEnd, ShiftRight, BucketSorted, Ranks, JustCached, EqualShare;
    forall x: nat, y: nat | x < |b| && y < |b| && b[x] == ss == b[y] && q[x] < q[y] ensures rk[x] < rk[y] {
      SmallerPrecedes(b, rk, p, ss, shifts, q0, q, x, y);
    }
  }

  lemma SmallerPrecedes(b: Block, rk: seq<nat>, p: seq<nat>, ss: byte, shifts: nat, q0: seq<nat>, q: seq<nat>, x: nat,
                        y: nat)
    requires JustCached(b, rk, p, ss, shifts, q0, q) && |b| <= |q| && IsPerm(p, |b|) && |b| > 0 && |rk| == |b| == |p|
    requires EqualShare(b, rk, p, ss, shifts)
    requires x < |b| && y < |b| && b[x] == ss == b[y] && q[x] < q[y]
    ensures rk[x] < rk[y]
  {
    hide Start, Pair, BigStart, BigEnd, ShiftRight, BucketSorted, Ranks;
    CachedPair(b, rk, p, ss, shifts, q0, q, x, y);
    var bs := BigStart(b, ss);
    var i := RowOf(b, rk, p, ss, shifts, q0, q, x);
    var j := RowOf(b, rk, p, ss, shifts, q0, q, y);
    if j <= i { ShiftMonotone(j - bs, i - bs, shifts); }
  }

  // ---- equal rotations in the rows of a bucket ----

  /** The ranks of the bucket, row by row. */
  ghost function RowRanks(b: Block, rk: seq<nat>, p: seq<nat>, ss: byte): (e: seq<nat>)
    requires |b| > 0 && |rk| == |b| == |p| && IsPerm(p, |b|) && BigStart(b, ss) <= BigEnd(b, ss) <= |b|
    ensures |e| == BigEnd(b, ss) - BigStart(b, ss)
    ensures forall i :: 0 <= i < |e| ==> e[i] == rk[p[BigStart(b, ss) + i]]
  {
    seq(BigEnd(b, ss) - BigStart(b, ss), i requires 0 <= i < BigEnd(b, ss) - BigStart(b, ss) =>
      rk[p[BigStart(b, ss) + i]])
  }

  lemma RowsAscend(b: Block, rk: seq<nat>, p: seq<nat>, ss: byte, shifts: nat, q0: seq<nat>, q: seq<nat>)
    requires JustCached(b, rk, p, ss, shifts, q0, q)
    ensures |b| > 0 && |rk| == |b| == |p| && IsPerm(p, |b|) && BigStart(b, ss) <= BigEnd(b, ss) <= |b|
    ensures Ascending(RowRanks(b, rk, p, ss))
  {
    hide Start, Pair, BigStart, BigEnd, ShiftRight, BucketSorted, Ranks;
    BigParts2(b, ss);
    var bs, e := BigStart(b, ss), RowRanks(b, rk, p, ss);
    forall i, j | 0 <= i < j < |e| ensures e[i] <= e[j] {
      BigRow(b, p, ss, bs + i);
      PairIs(b, p[bs + i]);
      RowsOrdered(b, rk, p, bs + i, bs + j);
    }
  }

  lemma EqualChar(b: Block, x: nat, y: nat)
    requires x < |b| && y < |b| && Cmp(b, x, y, |b|) == 0
    ensures b[x] == b[y]
  {
    assert Char(b, x) == b[x] && Char(b, y) == b[y];
  }

  /** Which copy of the shortest part a place is in. */
  function CopyOf(x: nat, g: nat): (k: nat)
    requires g > 0
  {
    x / g
  }

  function PlaceIn(x: nat, g: nat): (r: nat)
    requires g > 0
    ensures r < g
  {
    x % g
  }

  lemma PlaceIs(k: nat, m: nat, g: nat, r: nat) returns (y: nat)
    requires r < g && k < m
    ensures y < m * g && CopyOf(y, g) == k && PlaceIn(y, g) == r
  {
    y := k * g + r;
    TimesStep(k, m, g);
    LowBits.Unique(y, g, k, r);
    assert LowBits.Quotient(y, g) == y / g && LowBits.Remainder(y, g) == y % g;
  }

  lemma CopyBelow(x: nat, m: nat, g: nat)
    requires g > 0 && x < m * g
    ensures CopyOf(x, g) < m
  {
    InStretch(m, g, x);
  }

  lemma PlaceSettled(x: nat, y: nat, g: nat)
    requires g > 0 && CopyOf(x, g) == CopyOf(y, g) && PlaceIn(x, g) == PlaceIn(y, g)
    ensures x == y
  {
    assert x == (x / g) * g + x % g && y == (y / g) * g + y % g;
  }

  lemma SameRankPlace(b: Block, rk: seq<nat>, x: nat, y: nat)
    requires Ranks(b, rk) && x < |b| && y < |b|
    ensures rk[x] == rk[y] <==> PlaceIn(x, Shortest(b)) == PlaceIn(y, Shortest(b))
    ensures rk[x] == rk[y] ==> b[x] == b[y]
  {
    SameRank(b, rk, x, y);
    EqualExactly(b, x, y);
    if rk[x] == rk[y] { EqualChar(b, x, y); }
  }

  /** The copies that the rows of the bucket begin in. */
  ghost function RowCopies(b: Block, p: seq<nat>, ss: byte): (h: seq<nat>)
    requires |b| > 0 && |b| == |p| && IsPerm(p, |b|) && BigStart(b, ss) <= BigEnd(b, ss) <= |b|
    ensures |h| == BigEnd(b, ss) - BigStart(b, ss)
    ensures forall i :: 0 <= i < |h| ==> h[i] == CopyOf(p[BigStart(b, ss) + i], Shortest(b))
  {
    seq<nat>(BigEnd(b, ss) - BigStart(b, ss), i requires 0 <= i < BigEnd(b, ss) - BigStart(b, ss) =>
      CopyOf(p[BigStart(b, ss) + i], Shortest(b)))
  }

  lemma CopiesDiffer(b: Block, rk: seq<nat>, p: seq<nat>, ss: byte, i: nat, j: nat)
    requires |b| > 0 && |rk| == |b| == |p| && IsPerm(p, |b|) && BigStart(b, ss) <= BigEnd(b, ss) <= |b|
    requires Ranks(b, rk) && i < j < BigEnd(b, ss) - BigStart(b, ss)
    requires RowRanks(b, rk, p, ss)[i] == RowRanks(b, rk, p, ss)[j]
    ensures RowCopies(b, p, ss)[i] != RowCopies(b, p, ss)[j]
  {
    hide BigStart, BigEnd, Ranks, CopyOf, PlaceIn, Shortest;
    var x, y, g := p[BigStart(b, ss) + i], p[BigStart(b, ss) + j], Shortest(b);
    SameRankPlace(b, rk, x, y);
    if CopyOf(x, g) == CopyOf(y, g) { PlaceSettled(x, y, g); }
  }

  lemma CopiesBelow(b: Block, p: seq<nat>, ss: byte, i: nat)
    requires |b| > 0 && |b| == |p| && IsPerm(p, |b|) && BigStart(b, ss) <= BigEnd(b, ss) <= |b|
    requires i < BigEnd(b, ss) - BigStart(b, ss)
    ensures RowCopies(b, p, ss)[i] < Copies(b)
  {
    hide BigStart, BigEnd, CopyOf, Shortest, Copies;
    CopiesWhole(b);
    CopyBelow(p[BigStart(b, ss) + i], Copies(b), Shortest(b));
  }

  /** Every rotation of the bucket has as many equals there, itself among them, as the block has
      copies of its shortest part. */
  lemma EqualsCounted(b: Block, rk: seq<nat>, p: seq<nat>, ss: byte, shifts: nat, q0: seq<nat>, q: seq<nat>, r: nat)
    requires JustCached(b, rk, p, ss, shifts, q0, q) && |b| > 0 && |rk| == |b| == |p| && IsPerm(p, |b|)
    requires BigStart(b, ss) <= BigEnd(b, ss) <= |b| && r < BigEnd(b, ss) - BigStart(b, ss)
    ensures Count(RowRanks(b, rk, p, ss), RowRanks(b, rk, p, ss)[r]) == Copies(b)
  {
    hide Start, Pair, BigStart, BigEnd, ShiftRight, BucketSorted, Ranks, JustCached, Copies, CopyOf, Shortest;
    hide HasName, Count;
    var e, h := RowRanks(b, rk, p, ss), RowCopies(b, p, ss);
    JustRanks(b, rk, p, ss, shifts, q0, q);
    forall i | 0 <= i < |e| && e[i] == e[r] ensures h[i] < Copies(b) { CopiesBelow(b, p, ss, i); }
    forall i, j | 0 <= i < j < |e| && e[i] == e[r] == e[j] ensures h[i] != h[j] {
      CopiesDiffer(b, rk, p, ss, i, j);
    }
    forall k: nat | k < Copies(b) ensures HasName(e, e[r], h, k) {
      NameTaken(b, rk, p, ss, shifts, q0, q, r, k);
    }
    CountByName(e, e[r], h, Copies(b));
  }

  /** In each copy one of the equals begins. */
  lemma NameTaken(b: Block, rk: seq<nat>, p: seq<nat>, ss: byte, shifts: nat, q0: seq<nat>, q: seq<nat>, r: nat, k: nat)
    requires JustCached(b, rk, p, ss, shifts, q0, q) && |b| > 0 && |rk| == |b| == |p| && IsPerm(p, |b|)
    requires BigStart(b, ss) <= BigEnd(b, ss) <= |b| && r < BigEnd(b, ss) - BigStart(b, ss) && k < Copies(b)
    ensures HasName(RowRanks(b, rk, p, ss), RowRanks(b, rk, p, ss)[r], RowCopies(b, p, ss), k)
  {
    hide Start, Pair, BigStart, BigEnd, ShiftRight, BucketSorted, Ranks, JustCached, Copies, CopyOf, PlaceIn, Shortest;
    var bs, e, g, m := BigStart(b, ss), RowRanks(b, rk, p, ss), Shortest(b), Copies(b);
    var x := p[bs + r];
    CopiesWhole(b);
    JustRanks(b, rk, p, ss, shifts, q0, q);
    RowQuadrant(b, rk, p, ss, shifts, q0, q, bs + r);
    var y := PlaceIs(k, m, g, PlaceIn(x, g));
    SameRankPlace(b, rk, y, x);
    var i := RowOf(b, rk, p, ss, shifts, q0, q, y);
    assert e[i - bs] == e[r] && RowCopies(b, p, ss)[i - bs] == k;
  }

  /** Equal rotations stand together, in runs as long as the block has copies. */
  lemma RowsInRuns(b: Block, rk: seq<nat>, p: seq<nat>, ss: byte, shifts: nat, q0: seq<nat>, q: seq<nat>)
    returns (k: nat)
    requires JustCached(b, rk, p, ss, shifts, q0, q)
    ensures |b| > 0 && |rk| == |b| == |p| && IsPerm(p, |b|) && BigStart(b, ss) <= BigEnd(b, ss) <= |b|
    ensures Copies(b) > 0 && InRuns(RowRanks(b, rk, p, ss), Copies(b))
    ensures BigEnd(b, ss) - BigStart(b, ss) == k * Copies(b)
  {
    hide Start, Pair, BigStart, BigEnd, ShiftRight, BucketSorted, Ranks, JustCached, Copies, InRuns, Ascending;
    RowsAscend(b, rk, p, ss, shifts, q0, q);
    CopiesWhole(b);
    var e := RowRanks(b, rk, p, ss);
    forall r | 0 <= r < |e| ensures Count(e, e[r]) == Copies(b) {
      EqualsCounted(b, rk, p, ss, shifts, q0, q, r);
    }
    k := Runs(e, Copies(b));
  }

  // ---- the condition, on the block ----

  lemma {:induction false} ShiftDivides(v: nat, s: nat)
    ensures Pow2(s) > 0 && ShiftRight(v, s) == v / Pow2(s)
  {
    assert LowBits.High(v, s) == v / Pow2(s);
    if s > 0 {
      ShiftDivides(v, s - 1);
      LowBits.TwoSteps(v, s - 1, 1);
      assert Pow2(1) == 2;
      assert LowBits.High(LowBits.High(v, s - 1), 1) == LowBits.High(v, s - 1) / 2;
    }
  }

  /** Stretches of m never cross a border between stretches of w when w is a multiple of m. */
  lemma CoarserStretch(i: nat, j: nat, m: nat, w: nat)
    requires m > 0 && w > 0 && w % m == 0 && i / m == j / m
    ensures i / w == j / w
  {
    var t := w / m;
    assert w == t * m;
    Nested(i, t, m);
    Nested(j, t, m);
  }

  lemma Nested(i: nat, t: nat, m: nat)
    requires m > 0 && t * m > 0
    ensures t > 0 && i / (t * m) == (i / m) / t
  {
    Factor(t, m);
    var k, r := i / m, i % m;
    var u, c := k / t, k % t;
    NestedParts(i, t, m, k, r, u, c);
    NestedIs(i, t * m, u, c * m + r);
  }

  lemma NestedIs(i: nat, w: nat, u: nat, r: nat)
    requires i == u * w + r && r < w
    ensures i / w == u
  {
    LowBits.Unique(i, w, u, r);
    assert LowBits.Quotient(i, w) == i / w;
  }

  lemma NestedParts(i: nat, t: nat, m: nat, k: nat, r: nat, u: nat, c: nat)
    requires i == k * m + r && r < m && k == u * t + c && c < t
    ensures i == u * (t * m) + (c * m + r) && c * m + r < t * m
  {
    Distribute(u * t, c, m);
    Associate(u, t, m);
    TimesStep(c, t, m);
  }

  /** Where w is no multiple of m, the border at w lies inside a stretch. */
  lemma BorderInside(m: nat, w: nat)
    requires m > 0 && w > 0 && w % m != 0
    ensures (w - 1) / m == w / m && (w - 1) / w == 0 && w / w == 1
  {
    assert w == (w / m) * m + w % m;
    InStretch(w / m, m, w - 1);
    InStretch(0, w, w - 1);
    InStretch(1, w, w);
  }

  lemma SharesExactly(b: Block, rk: seq<nat>, p: seq<nat>, ss: byte, shifts: nat, m: nat)
    requires |b| > 0 && |rk| == |b| == |p| && IsPerm(p, |b|) && BigStart(b, ss) <= BigEnd(b, ss) <= |b|
    requires m > 0 && InRuns(RowRanks(b, rk, p, ss), m)
    ensures Pow2(shifts) > 0
    ensures EqualShare(b, rk, p, ss, shifts) <==>
              BigEnd(b, ss) - BigStart(b, ss) <= Pow2(shifts) || Pow2(shifts) % m == 0
  {
    hide BigStart, BigEnd, Pow2, ShiftRight, EqualShare;
    var bs, e, w := BigStart(b, ss), RowRanks(b, rk, p, ss), Pow2(shifts);
    ShiftDivides(0, shifts);
    if |e| <= w || w % m == 0 {
      SharedIf(b, rk, p, ss, shifts, m);
    } else {
      BorderInside(m, w);
      ShiftDivides(w - 1, shifts);
      ShiftDivides(w, shifts);
      assert e[w - 1] == e[w];
      ShareBroken(b, rk, p, ss, shifts, bs + (w - 1), bs + w);
    }
  }

  lemma SharedIf(b: Block, rk: seq<nat>, p: seq<nat>, ss: byte, shifts: nat, m: nat)
    requires |b| > 0 && |rk| == |b| == |p| && IsPerm(p, |b|) && BigStart(b, ss) <= BigEnd(b, ss) <= |b|
    requires m > 0 && InRuns(RowRanks(b, rk, p, ss), m) && Pow2(shifts) > 0
    requires BigEnd(b, ss) - BigStart(b, ss) <= Pow2(shifts) || Pow2(shifts) % m == 0
    ensures EqualShare(b, rk, p, ss, shifts)
  {
    hide BigStart, BigEnd, Pow2, ShiftRight, EqualShare, InRuns;
    var bs, e := BigStart(b, ss), RowRanks(b, rk, p, ss);
    forall i: nat, j: nat | bs <= i < j < BigEnd(b, ss) && j < |b| && rk[p[i]] == rk[p[j]]
      ensures ShiftRight(i - bs, shifts) == ShiftRight(j - bs, shifts)
    {
      assert e[i - bs] == e[j - bs];
      SharedPair(e, m, shifts, i - bs, j - bs);
    }
    ShareFolds(b, rk, p, ss, shifts);
  }

  lemma SharedPair(e: seq<nat>, m: nat, shifts: nat, i: nat, j: nat)
    requires m > 0 && InRuns(e, m) && i < |e| && j < |e| && e[i] == e[j] && Pow2(shifts) > 0
    requires |e| <= Pow2(shifts) || Pow2(shifts) % m == 0
    ensures ShiftRight(i, shifts) == ShiftRight(j, shifts)
  {
    hide Pow2, ShiftRight;
    var w := Pow2(shifts);
    ShiftDivides(i, shifts);
    ShiftDivides(j, shifts);
    if w % m == 0 {
      CoarserStretch(i, j, m, w);
    } else {
      InStretch(0, w, i);
      InStretch(0, w, j);
    }
  }

  lemma ShareFolds(b: Block, rk: seq<nat>, p: seq<nat>, ss: byte, shifts: nat)
    requires |b| > 0 && |rk| == |b| == |p| && IsPerm(p, |b|)
    requires forall i: nat, j: nat :: BigStart(b, ss) <= i < j < BigEnd(b, ss) && j < |b| && rk[p[i]] == rk[p[j]] ==>
               ShiftRight(i - BigStart(b, ss), shifts) == ShiftRight(j - BigStart(b, ss), shifts)
    ensures EqualShare(b, rk, p, ss, shifts)
  {
    hide BigStart, BigEnd, ShiftRight;
  }

  lemma ShareBroken(b: Block, rk: seq<nat>, p: seq<nat>, ss: byte, shifts: nat, i: nat, j: nat)
    requires |b| > 0 && |rk| == |b| == |p| && IsPerm(p, |b|)
    requires BigStart(b, ss) <= i < j < BigEnd(b, ss) && j < |b| && rk[p[i]] == rk[p[j]]
    requires ShiftRight(i - BigStart(b, ss), shifts) != ShiftRight(j - BigStart(b, ss), shifts)
    ensures !EqualShare(b, rk, p, ss, shifts)
  {
    hide BigStart, BigEnd, ShiftRight;
  }

  /** The remark is right about a bucket just cached exactly when the number of times the block has
      its shortest part divides the width of a shift, or the shift leaves nothing of the bucket. */
  lemma PrecedesExactly(b: Block, rk: seq<nat>, p: seq<nat>, ss: byte, shifts: nat, q0: seq<nat>, q: seq<nat>)
    requires JustCached(b, rk, p, ss, shifts, q0, q)
    ensures |b| > 0 && |b| <= |q| && |rk| == |b| && Copies(b) > 0
    ensures Precedes(b, rk, ss, q) <==>
              BigEnd(b, ss) - BigStart(b, ss) <= Pow2(shifts) || Pow2(shifts) % Copies(b) == 0
  {
    hide BigStart, BigEnd, Pow2, ShiftRight, EqualShare, Precedes, JustCached, Copies, InRuns;
    PrecedesShares(b, rk, p, ss, shifts, q0, q);
    var k := RowsInRuns(b, rk, p, ss, shifts, q0, q);
    SharesExactly(b, rk, p, ss, shifts, Copies(b));
  }

  /** So it is right, whatever the shift, about every block that repeats no shorter one. */
  lemma PrecedesUnlessRepeated(b: Block, rk: seq<nat>, p: seq<nat>, ss: byte, shifts: nat, q0: seq<nat>, q: seq<nat>)
    requires JustCached(b, rk, p, ss, shifts, q0, q) && !Repetition(b)
    ensures |rk| == |b| <= |q| && Precedes(b, rk, ss, q)
  {
    hide BigStart, BigEnd, Pow2, Precedes, JustCached, Copies, Repetition;
    PrecedesExactly(b, rk, p, ss, shifts, q0, q);
    OneCopy(b);
    NothingLeft(Pow2(shifts));
  }

  lemma NothingLeft(w: nat)
    ensures w % 1 == 0
  {
  }

  lemma PowZero()
    ensures Pow2(0) == 1
  {
  }

  /** With no shift, and anything in the bucket, it is right about the blocks that are not a
      repetition of a shorter one, and about no others. */
  lemma UnshiftedExactly(b: Block, rk: seq<nat>, p: seq<nat>, ss: byte, q0: seq<nat>, q: seq<nat>)
    requires JustCached(b, rk, p, ss, 0, q0, q) && |b| > 0 && BigStart(b, ss) < BigEnd(b, ss)
    ensures |rk| == |b| <= |q| && (Precedes(b, rk, ss, q) <==> !Repetition(b))
  {
    hide BigStart, BigEnd, ShiftRight, EqualShare, Precedes, JustCached, Copies, InRuns, Repetition;
    PrecedesExactly(b, rk, p, ss, 0, q0, q);
    var k := RowsInRuns(b, rk, p, ss, 0, q0, q);
    OneCopy(b);
    var m := Copies(b);
    if m > 1 {
      PowZero();
      InStretch(0, m, 1);
      Factor(k, m);
      MultipleBound(k, m);
    }
  }

  lemma JustRanks(b: Block, rk: seq<nat>, p: seq<nat>, ss: byte, shifts: nat, q0: seq<nat>, q: seq<nat>)
    requires JustCached(b, rk, p, ss, shifts, q0, q)
    ensures Ranks(b, rk)
  {
  }

  lemma SameRank(b: Block, rk: seq<nat>, x: nat, y: nat)
    requires Ranks(b, rk) && x < |b| && y < |b|
    ensures rk[x] == rk[y] <==> Cmp(b, x, y, |b|) == 0
    ensures rk[x] == rk[y] <==> Cmp(b, y, x, |b|) == 0
  {
    CmpAntisymmetric(b, x, y, |b|);
  }

  /** What holds of the remark once the sorter has cached a bucket that is not empty. */
  ghost predicate RemarkExactly(b: Block, rk: seq<nat>, ss: byte, shifts: nat, q: seq<nat>) {
    && 0 < |b| == |rk| <= |q| && Copies(b) > 0
    && (BigStart(b, ss) < BigEnd(b, ss) ==> (Precedes(b, rk, ss, q) <==> Pow2(shifts) % Copies(b) == 0))
  }

  lemma RemarkCached(b: Block, rk: seq<nat>, p: seq<nat>, ss: byte, shifts: nat, q0: seq<nat>, q: seq<nat>)
    requires JustCached(b, rk, p, ss, shifts, q0, q) && |b| > 0
    requires shifts > 0 ==> BigEnd(b, ss) - BigStart(b, ss) > Pow2(shifts)
    ensures RemarkExactly(b, rk, ss, shifts, q)
  {
    hide BigStart, BigEnd, ShiftRight, Precedes, JustCached, Copies, InRuns, Repetition, Pow2;
    PrecedesExactly(b, rk, p, ss, shifts, q0, q);
    if shifts == 0 && BigStart(b, ss) < BigEnd(b, ss) {
      PowZero();
      UnshiftedExactly(b, rk, p, ss, q0, q);
      OneCopy(b);
      OneDivides(Copies(b));
    }
  }

  lemma OneDivides(m: nat)
    requires m > 0
    ensures 1 % m == 0 <==> m == 1
  {
    if m > 1 { InStretch(0, m, 1); }
  }

  lemma RemarkUnshifted(b: Block, rk: seq<nat>, ss: byte, q: seq<nat>)
    requires RemarkExactly(b, rk, ss, 0, q) && BigStart(b, ss) < BigEnd(b, ss)
    ensures Precedes(b, rk, ss, q) <==> !Repetition(b)
  {
    hide BigStart, BigEnd, Precedes, Copies, Repetition, Pow2;
    PowZero();
    OneCopy(b);
    OneDivides(Copies(b));
  }

  /** The least shift that is enough leaves more than one quadrant. */
  lemma LeastShift(size: nat, shifts: nat)
    requires shifts > 0 && ShiftRight(size, shifts - 1) > 65534
    ensures size > Pow2(shifts)
  {
    ShiftDivides(size, shifts - 1);
    var w := Pow2(shifts - 1);
    assert Pow2(shifts) == 2 * w;
    hide Pow2, ShiftRight;
    assert size == (size / w) * w + size % w;
    TimesUp(3, size / w, w);
  }

  // ---- blocks it is wrong about ----

  lemma {:induction false} DoubledTurns(b: Block, y: seq<byte>, k: nat, h: nat)
    requires |y| > 0 && b == y + y && k + h <= |y|
    ensures Cmp(b, k, |y| + k, h) == 0
    decreases h
  {
    if h > 0 { DoubledTurns(b, y, k + 1, h - 1); }
  }

  lemma DoubledEqual(b: Block, y: seq<byte>)
    requires |y| > 0 && b == y + y
    ensures Cmp(b, 0, |y|, |b|) == 0
  {
    var n := |y|;
    DoubledTurns(b, y, 0, n);
    CmpSplit(b, 0, n, n, n);
    CmpWrap(b, n, 0, n);
    CmpAntisymmetric(b, 0, n, n);
  }

  lemma OnlyRow(b: Block, y: seq<byte>, rk: seq<nat>, p: seq<nat>, q0: seq<nat>, q: seq<nat>, i: nat, j: nat, r: nat)
    requires |y| > 0 && b == y + y && forall k :: 0 < k < |y| ==> y[k] != y[0]
    requires JustCached(b, rk, p, y[0], 0, q0, q) && BigStart(b, y[0]) <= r < BigEnd(b, y[0])
    requires i < |p| && j < |p| && p[i] == 0 && p[j] == |y| && r < |b|
    ensures r == i || r == j
  {
    hide Start, Pair, BigStart, BigEnd, BucketSorted, Ranks, JustCached;
    JustSizes(b, rk, p, y[0], 0, q0, q);
    RowQuadrant(b, rk, p, y[0], 0, q0, q, r);
    assert p[r] == 0 || p[r] == |y|;
  }

  /** A block that is some bytes twice over, the first of which comes nowhere else in them: its two
      rotations that begin with that byte are equal, and with no shift one gets the quadrant zero
      and the other one. */
  lemma PrecedesFails(b: Block, y: seq<byte>, rk: seq<nat>, p: seq<nat>, q0: seq<nat>, q: seq<nat>)
    requires |y| > 0 && b == y + y && forall k :: 0 < k < |y| ==> y[k] != y[0]
    requires JustCached(b, rk, p, y[0], 0, q0, q)
    ensures |rk| == |b| <= |q| && rk[0] == rk[|y|] && q[0] + q[|y|] == 1
    ensures !Precedes(b, rk, y[0], q)
  {
    hide Start, Pair, BigStart, BigEnd, BucketSorted, Ranks, JustCached;
    var ss, n := y[0], |y|;
    JustSizes(b, rk, p, ss, 0, q0, q);
    JustRanks(b, rk, p, ss, 0, q0, q);
    DoubledEqual(b, y);
    SameRank(b, rk, 0, n);
    var i := RowOf(b, rk, p, ss, 0, q0, q, 0);
    var j := RowOf(b, rk, p, ss, 0, q0, q, n);
    var bs := BigStart(b, ss);
    var first, second := if i < j then i else j, if i < j then j else i;
    OnlyRow(b, y, rk, p, q0, q, i, j, bs);
    OnlyRow(b, y, rk, p, q0, q, i, j, first + 1);
    assert first == bs && second == bs + 1;
    assert q[p[first]] < q[p[second]];
  }
}
