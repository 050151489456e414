/** Quadrants of a big bucket that is in order: its rows, coarse enough for sixteen bits, tell which of
    two rotations is not greater. */
module QuadrantCache {
  import opened Rotations
  import opened Permutations
  import opened RotationRanks
  import opened MainCompare
  import opened SmallBuckets
  import opened ScanOrder
  import opened ScanSlots

  function ShiftRight(v: nat, s: nat): nat {
    if s == 0 then v else ShiftRight(v, s - 1) / 2
  }

  lemma {:induction false} ShiftMonotone(a: nat, c: nat, s: nat)
    requires a <= c
    ensures ShiftRight(a, s) <= ShiftRight(c, s)
  {
    if s > 0 { ShiftMonotone(a, c, s - 1); }
  }

  /** Rows of the big bucket from row r on have their quadrants; other characters keep theirs. */
  ghost predicate Cached(b: Block, p: seq<nat>, ss: byte, shifts: nat, r: nat, q0: seq<nat>, q: seq<nat>) {
    && |b| > N_OVERSHOOT && |p| == |b| && |q| == |q0| >= |b| + N_OVERSHOOT
    && (forall i: nat {:trigger q[i]} :: |b| <= i < |b| + N_OVERSHOOT ==> q[i] == q[i - |b|])
    && (forall x: nat :: x < |b| && b[x] != ss ==> q[x] == q0[x])
    && forall i: nat {:trigger p[i]} :: BigStart(b, ss) + r <= i < BigEnd(b, ss) && i < |b| && p[i] < |b| ==>
         q[p[i]] == ShiftRight(i - BigStart(b, ss), shifts)
  }

  function Repeated(q: seq<nat>, n: nat, x: nat, v: nat): (r: seq<nat>)
    requires x < n && n + N_OVERSHOOT <= |q|
    ensures |r| == |q|
  {
    if x < N_OVERSHOOT then q[x := v][x + n := v] else q[x := v]
  }

  lemma BigRow(b: Block, p: seq<nat>, ss: byte, i: nat)
    requires Grouped(b, p) && i < |b|
    ensures BigStart(b, ss) <= i < BigEnd(b, ss) <==> b[p[i]] == ss
    ensures BigEnd(b, ss) <= |b|
  {
    hide Pair, Start;
    PairParts(b, p[i], ss);
    RowsBetween(b, p, i, Code(ss, 0), Code(ss, 255));
    BigParts(b, ss);
  }

  lemma CacheOne(b: Block, p: seq<nat>, ss: byte, shifts: nat, r: nat, q0: seq<nat>, q: seq<nat>)
    requires Grouped(b, p) && Cached(b, p, ss, shifts, r + 1, q0, q) && BigStart(b, ss) + r < BigEnd(b, ss)
    ensures BigStart(b, ss) + r < |b| && p[BigStart(b, ss) + r] < |b|
    ensures Cached(b, p, ss, shifts, r, q0, Repeated(q, |b|, p[BigStart(b, ss) + r], ShiftRight(r, shifts)))
  {
    hide Start, Pair, BigStart, BigEnd, ShiftRight;
    var at := BigStart(b, ss) + r;
    BigParts2(b, ss);
    BigRow(b, p, ss, at);
  }

  lemma BigParts2(b: Block, ss: byte)
    requires |b| > 0
    ensures BigStart(b, ss) <= BigEnd(b, ss) <= |b|
  {
    BigParts(b, ss);
  }

  /** Once a whole big bucket is cached the quadrants still tell the truth. */
  lemma CachedTrue(b: Block, rk: seq<nat>, p: seq<nat>, ss: byte, shifts: nat, q0: seq<nat>, q: seq<nat>)
    requires Ranks(b, rk) && Grouped(b, p) && Quadrants(b, rk, q0) && Cached(b, p, ss, shifts, 0, q0, q)
    requires |rk| == |b| == |p| && forall d: byte :: BucketSorted(b, rk, p, Code(ss, d))
    ensures Quadrants(b, rk, q)
  {
    hide Start, Pair, BigStart, BigEnd, ShiftRight, BucketSorted, Grouped;
    forall x: nat, y: nat | x < |b| && y < |b| && b[x] == b[y] && q[x] < q[y]
      ensures rk[x] <= rk[y]
    {
      if b[x] == ss { CachedPair(b, rk, p, ss, shifts, q0, q, x, y); }
    }
  }

  lemma CachedPair(b: Block, rk: seq<nat>, p: seq<nat>, ss: byte, shifts: nat, q0: seq<nat>, q: seq<nat>, x: nat,
                   y: nat)
    requires Ranks(b, rk) && Grouped(b, p) && Cached(b, p, ss, shifts, 0, q0, q)
    requires |rk| == |b| == |p| && forall d: byte :: BucketSorted(b, rk, p, Code(ss, d))
    requires x < |b| && y < |b| && b[x] == ss == b[y] && q[x] < q[y]
    ensures rk[x] <= rk[y]
  {
    hide Start, Pair, BigStart, BigEnd, ShiftRight, BucketSorted;
    var i := PermSurjective(p, |b|, x);
    var j := PermSurjective(p, |b|, y);
    BigRow(b, p, ss, i);
    BigRow(b, p, ss, j);
    if j <= i {
      ShiftMonotone(j - BigStart(b, ss), i - BigStart(b, ss), shifts);
    } else {
      PairIs(b, x);
      RowsOrdered(b, rk, p, i, j);
    }
  }
}
