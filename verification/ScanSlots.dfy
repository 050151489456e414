/** The memory side of pointer scanning: small buckets filled from both ends, without ever running
    out of room, until they hold exactly their members in order. */
module ScanSlots {
  import opened Rotations
  import opened Permutations
  import opened RotationRanks
  import opened SmallBuckets
  import opened ScanOrder

  // ---- room ----

  ghost function Members(b: Block, k: nat, code: nat): (s: set<nat>)
    requires |b| > 0
    ensures |s| == Same(b, k, code)
    ensures forall i: nat :: i in s <==> i < k && Pair(b, i) == code
  {
    if k == 0 then {} else Members(b, k - 1, code) + if Pair(b, k - 1) == code then {k - 1} else {}
  }

  ghost predicate InBucket(b: Block, w: seq<nat>, code: nat) {
    |b| > 0 && forall i :: 0 <= i < |w| ==> w[i] < |b| && Pair(b, w[i]) == code
  }

  lemma FirstInMembers(b: Block, w: seq<nat>, code: nat)
    requires InBucket(b, w, code)
    ensures First(w, |w|) <= Members(b, |b|, code)
  {
    hide Pair;
  }

  /** Different members of a bucket never outnumber it; all of them fill it. */
  lemma BucketRoom(b: Block, w: seq<nat>, code: nat)
    requires InBucket(b, w, code) && Distinct(w)
    ensures Start(b, code) + |w| <= Start(b, code + 1)
    ensures (forall k: nat :: k < |b| && Pair(b, k) == code ==> k in w) ==> Start(b, code) + |w| == Start(b, code + 1)
  {
    hide Pair, Under, Same;
    FirstSize(w, |w|);
    FirstInMembers(b, w, code);
    var all := Members(b, |b|, code);
    SubsetSize(First(w, |w|), all);
    UnderNext(b, |b|, code);
    if forall k: nat :: k < |b| && Pair(b, k) == code ==> k in w {
      forall k | k in all ensures k in First(w, |w|) {
        var i :| 0 <= i < |w| && w[i] == k;
      }
      SubsetSize(all, First(w, |w|));
    }
  }

  lemma BucketsApart(b: Block, c: nat, e: nat)
    requires |b| > 0 && c < e
    ensures Start(b, c) <= Start(b, c + 1) <= Start(b, e) <= Start(b, e + 1) <= |b|
  {
    hide Under;
    UnderMonotone(b, |b|, c, c + 1);
    UnderMonotone(b, |b|, c + 1, e);
    UnderMonotone(b, |b|, e, e + 1);
  }

  // ---- slots ----

  /** Slot r of s..e-1, from the left or from the right. */
  function SlotAt(left: bool, s: nat, e: nat, r: nat): int {
    if left then s + r else e - 1 - r
  }

  ghost predicate InSlots(p: seq<nat>, left: bool, s: nat, e: nat, w: seq<nat>) {
    s + |w| <= e <= |p| && forall r {:trigger w[r]} :: 0 <= r < |w| ==> p[SlotAt(left, s, e, r)] == w[r]
  }

  lemma InSlotsKept(p: seq<nat>, left: bool, s: nat, e: nat, w: seq<nat>, q: nat, k: nat)
    requires InSlots(p, left, s, e, w) && q < |p|
    requires if left then !(s <= q < s + |w|) else !(e - |w| <= q < e)
    ensures InSlots(p[q := k], left, s, e, w)
  {
  }

  lemma InSlotsMore(p: seq<nat>, left: bool, s: nat, e: nat, w: seq<nat>, k: nat)
    requires InSlots(p, left, s, e, w) && s + |w| < e
    ensures 0 <= SlotAt(left, s, e, |w|) < |p|
    ensures InSlots(p[SlotAt(left, s, e, |w|) := k], left, s, e, w + [k])
  {
  }

  /** The bucket of t followed by c: what was scanned stands at one end, what the other scan found at the other. */
  ghost predicate Filling(b: Block, c: byte, t: byte, left: bool, p: seq<nat>, mine: seq<nat>, other: seq<nat>,
                          pos: int)
    requires |b| > 0
  {
    var s, e := Start(b, Code(t, c)), Start(b, Code(t, c) + 1);
    && s + |mine| + |other| <= e
    && InSlots(p, left, s, e, mine) && InSlots(p, !left, s, e, other) && pos == SlotAt(left, s, e, |mine|)
  }

  lemma FillOne(b: Block, c: byte, t: byte, left: bool, p: seq<nat>, mine: seq<nat>, other: seq<nat>, pos: int, k: nat)
    requires |b| > 0 && Filling(b, c, t, left, p, mine, other, pos)
    requires Start(b, Code(t, c)) + |mine| + 1 + |other| <= Start(b, Code(t, c) + 1)
    ensures Start(b, Code(t, c)) <= pos < Start(b, Code(t, c) + 1) <= |p|
    ensures Filling(b, c, t, left, p[pos := k], mine + [k], other, if left then pos + 1 else pos - 1)
  {
    var s, e := Start(b, Code(t, c)), Start(b, Code(t, c) + 1);
    hide Start, Code;
    InSlotsMore(p, left, s, e, mine, k);
    InSlotsKept(p, !left, s, e, other, pos, k);
  }

  lemma FillElsewhere(b: Block, c: byte, t: byte, left: bool, p: seq<nat>, mine: seq<nat>, other: seq<nat>, pos: int,
                      q: nat, k: nat)
    requires |b| > 0 && Filling(b, c, t, left, p, mine, other, pos)
    requires q < |p| && !(Start(b, Code(t, c)) <= q < Start(b, Code(t, c) + 1))
    ensures Filling(b, c, t, left, p[q := k], mine, other, pos)
  {
    var s, e := Start(b, Code(t, c)), Start(b, Code(t, c) + 1);
    hide Start, Code;
    InSlotsKept(p, left, s, e, mine, q, k);
    InSlotsKept(p, !left, s, e, other, q, k);
  }

  // ---- all buckets of one second character ----

  ghost predicate AllBelow(b: Block, xs: seq<nat>) {
    forall i :: 0 <= i < |xs| ==> xs[i] < |b|
  }

  /** Every bucket that is not done is being filled from the lists scanned. */
  ghost predicate FillingAll(b: Block, c: byte, done: seq<bool>, left: bool, p: seq<nat>, xs: seq<nat>, ys: seq<nat>,
                             pos: seq<int>)
    requires |b| > 0 && AllBelow(b, xs) && AllBelow(b, ys)
  {
    && |done| == 256 && |pos| == 256
    && forall t: byte :: !done[t] ==> Filling(b, c, t, left, p, Placed(b, xs, t), Placed(b, ys, t), pos[t])
  }

  /** Slots of other buckets keep what they had. */
  ghost predicate OthersKept(b: Block, c: byte, done: seq<bool>, p0: seq<nat>, p: seq<nat>) {
    && |done| == 256 && |b| > 0 && |p0| == |b| == |p|
    && forall q :: 0 <= q < |b| && p0[q] < |b| && p[q] != p0[q] ==> b[Wrap(|b|, p0[q] + 1)] == c && !done[b[p0[q]]]
  }

  lemma AnyRoom(b: Block, rk: seq<nat>, c: byte, left: bool, xs: seq<nat>, ys: seq<nat>, t: byte)
    requires |b| > 0 && Ranks(b, rk) && Listed(b, rk, c, left, xs) && Listed(b, rk, c, !left, ys)
    ensures Start(b, Code(t, c)) + |Placed(b, xs, t)| + |Placed(b, ys, t)| <= Start(b, Code(t, c) + 1)
    ensures InBucket(b, Placed(b, xs, t) + Placed(b, ys, t), Code(t, c))
            && Distinct(Placed(b, xs, t) + Placed(b, ys, t))
  {
    hide Placed, Listed, Start, Code, Pair, Ranks;
    BelowAll(b, rk, c, left, xs);
    BelowAll(b, rk, c, !left, ys);
    var u, w := Placed(b, xs, t), Placed(b, ys, t);
    PlacedListed(b, rk, c, left, xs, t);
    PlacedListed(b, rk, c, !left, ys, t);
    forall r | 0 <= r < |u| ensures u[r] < |b| && Pair(b, u[r]) ==
      Code(t, c) && OnSide(b, c, left, Wrap(|b|, u[r] + 1)) {
      PlacedMembers(b, rk, c, left, xs, t, r);
    }
    forall r | 0 <= r < |w| ensures w[r] < |b| && Pair(b, w[r]) ==
      Code(t, c) && OnSide(b, c, !left, Wrap(|b|, w[r] + 1)) {
      PlacedMembers(b, rk, c, !left, ys, t, r);
    }
    forall i, j | 0 <= i < |u| && 0 <= j < |w| ensures u[i] != w[j] {
      assert OnSide(b, c, left, Wrap(|b|, u[i] + 1));
      assert OnSide(b, c, !left, Wrap(|b|, w[j] + 1));
    }
    BucketRoom(b, u + w, Code(t, c));
  }

  /** One scan of two, in the middle: the slots of the big bucket hold what was found so far. */
  ghost predicate Scanning(b: Block, rk: seq<nat>, c: byte, done: seq<bool>, left: bool, p0: seq<nat>, p: seq<nat>,
                           base: seq<nat>, xs: seq<nat>, ys: seq<nat>, pos: seq<int>)
  {
    && |b| > 0 && Fed(b, rk, c, left, base, xs) && Listed(b, rk, c, !left, ys)
    && AllBelow(b, xs) && AllBelow(b, ys)
    && FillingAll(b, c, done, left, p, xs, ys, pos)
    && OthersKept(b, c, done, p0, p)
    && (xs == [] && ys == [] ==> p == p0)
  }

  /** What scanning y does to the slots. */
  function Put(p: seq<nat>, pos: seq<int>, done: seq<bool>, left: bool, t: byte, k: nat): (r: (seq<nat>, seq<int>))
    requires |done| == 256 == |pos| && (!done[t] ==> 0 <= pos[t] < |p|)
  {
    if done[t] then (p, pos) else (p[pos[t] := k], pos[t := if left then pos[t] + 1 else pos[t] - 1])
  }

  lemma CodesDiffer(t: byte, u: byte, c: byte)
    requires t != u
    ensures Code(t, c) < Code(u, c) || Code(u, c) < Code(t, c)
  {
  }

  lemma NotHere(b: Block, t: byte, u: byte, c: byte, q: nat)
    requires |b| > 0 && t != u && Start(b, Code(t, c)) <= q < Start(b, Code(t, c) + 1)
    ensures !(Start(b, Code(u, c)) <= q < Start(b, Code(u, c) + 1))
  {
    hide Start;
    CodesDiffer(t, u, c);
    if Code(t, c) < Code(u, c) {
      BucketsApart(b, Code(t, c), Code(u, c));
    } else {
      BucketsApart(b, Code(u, c), Code(t, c));
    }
  }

  /** The bucket of one first character after y was scanned. */
  lemma PutFills(b: Block, rk: seq<nat>, c: byte, done: seq<bool>, left: bool, p: seq<nat>, xs: seq<nat>,
                 ys: seq<nat>, pos: seq<int>, y: nat, u: byte)
    requires |b| > 0 && Ranks(b, rk) && Listed(b, rk, c, left, xs + [y]) && Listed(b, rk, c, !left, ys)
    requires AllBelow(b, xs) && AllBelow(b, ys) && y < |b|
    requires FillingAll(b, c, done, left, p, xs, ys, pos) && !done[u]
    ensures AllBelow(b, xs + [y]) && |done| == |pos| == 256
    ensures var t := b[Pred(|b|, y)]; !done[t] ==> 0 <= pos[t] < |p|
    ensures var t, k := b[Pred(|b|, y)], Pred(|b|, y);
            var (p2, pos2) := Put(p, pos, done, left, t, k);
            Filling(b, c, u, left, p2, Placed(b, xs + [y], u), Placed(b, ys, u), pos2[u])
  {
    hide Placed, Listed, Start, Ranks, Filling;
    var k := Pred(|b|, y);
    var t := b[k];
    PlacedNext(b, xs, y, u);
    assert Filling(b, c, u, left, p, Placed(b, xs, u), Placed(b, ys, u), pos[u]);
    if done[t] {
      assert u != t && Placed(b, xs + [y], u) == Placed(b, xs, u);
      assert Put(p, pos, done, left, t, k) == (p, pos);
    } else {
      AnyRoom(b, rk, c, left, xs + [y], ys, t);
      PlacedNext(b, xs, y, t);
      FillOne(b, c, t, left, p, Placed(b, xs, t), Placed(b, ys, t), pos[t], k);
      if u != t {
        NotHere(b, t, u, c, pos[t]);
        FillElsewhere(b, c, u, left, p, Placed(b, xs, u), Placed(b, ys, u), pos[u], pos[t], k);
        assert Placed(b, xs + [y], u) == Placed(b, xs, u);
      }
      assert Put(p, pos, done, left, t, k) == (p[pos[t] := k], pos[t := if left then pos[t] + 1 else pos[t] - 1]);
    }
  }

  // ---- the big bucket ----

  /** The small bucket is in order. */
  ghost predicate BucketSorted(b: Block, rk: seq<nat>, p: seq<nat>, code: nat)
    requires |b| > 0 && |rk| == |b| == |p|
  {
    forall i, j :: Start(b, code) <= i < j < Start(b, code + 1) && p[i] < |b| && p[j] < |b| ==> rk[p[i]] <= rk[p[j]]
  }

  lemma PairsOrder(b: Block, rk: seq<nat>, x: nat, y: nat)
    requires Ranks(b, rk) && x < |b| && y < |b| && Pair(b, x) < Pair(b, y)
    ensures rk[x] <= rk[y]
  {
    assert Cmp(b, x + 2, y + 2, 0) == 0;
    assert Cmp(b, x + 1, y + 1, 1) ==
             if Char(b, x + 1) < Char(b, y + 1) then -1 else if Char(b, x + 1) > Char(b, y + 1) then 1 else 0;
    Decided(b, x, y, 2);
  }

  /** Rows are ordered by pair, and inside a bucket that is sorted. */
  lemma RowsOrdered(b: Block, rk: seq<nat>, p: seq<nat>, i: nat, j: nat)
    requires Ranks(b, rk) && Grouped(b, p) && i < j < |b|
    requires Pair(b, p[i]) == Pair(b, p[j]) ==> BucketSorted(b, rk, p, Pair(b, p[i]))
    ensures rk[p[i]] <= rk[p[j]]
  {
    hide Pair, Under, Same, Start, Ranks;
    var ci, cj := Pair(b, p[i]), Pair(b, p[j]);
    if ci < cj {
      PairsOrder(b, rk, p[i], p[j]);
    } else if cj < ci {
      BucketsApart(b, cj, ci);
    }
  }

  lemma PairParts(b: Block, x: nat, c: byte)
    requires x < |b|
    ensures Pair(b, x) == Code(b[x], b[Wrap(|b|, x + 1)])
    ensures Code(c, 0) <= Pair(b, x) <= Code(c, 255) <==> b[x] == c
    ensures b[x] == c ==> (Pair(b, x) < Code(c, c) <==> b[Wrap(|b|, x + 1)] < c)
    ensures b[x] == c ==> (Pair(b, x) > Code(c, c) <==> b[Wrap(|b|, x + 1)] > c)
  {
    PairIs(b, x);
  }

  /** Rows between two bucket starts. */
  lemma RowsBetween(b: Block, p: seq<nat>, q: nat, lo: nat, hi: nat)
    requires Grouped(b, p) && q < |b|
    ensures lo <= Pair(b, p[q]) <= hi ==> Start(b, lo) <= q < Start(b, hi + 1)
    ensures Start(b, lo) <= q < Start(b, hi + 1) ==> lo <= Pair(b, p[q]) <= hi
  {
    hide Pair, Under, Same, Start;
    var c := Pair(b, p[q]);
    if c < lo { BucketsApart(b, c, lo); }
    if hi < c { BucketsApart(b, hi, c); }
    if lo < c { BucketsApart(b, lo, c); }
    if c < hi { BucketsApart(b, c, hi); }
  }

  function BigStart(b: Block, c: byte): nat
    requires |b| > 0
  {
    Start(b, Code(c, 0))
  }

  function BigEnd(b: Block, c: byte): nat
    requires |b| > 0
  {
    Start(b, Code(c, 255) + 1)
  }

  lemma BigParts(b: Block, c: byte)
    requires |b| > 0
    ensures BigStart(b, c) <= Start(b, Code(c, c)) <= Start(b, Code(c, c) + 1) <= BigEnd(b, c) <= |b|
  {
    hide Start;
    StartMonotone(b, Code(c, 0), Code(c, c));
    StartMonotone(b, Code(c, c), Code(c, c) + 1);
    StartMonotone(b, Code(c, c) + 1, Code(c, 255) + 1);
  }

  lemma StartMonotone(b: Block, c: nat, e: nat)
    requires |b| > 0 && c <= e
    ensures Start(b, c) <= Start(b, e)
  {
    UnderMonotone(b, |b|, c, e);
  }

  /** How many rotations with c and then a character on that side. */
  function BaseSize(b: Block, c: byte, left: bool): nat
    requires |b| > 0
  {
    BigParts(b, c);
    if left then Start(b, Code(c, c)) - BigStart(b, c) else BigEnd(b, c) - Start(b, Code(c, c) + 1)
  }

  /** Those rotations, from the outside in. */
  function Base(b: Block, c: byte, left: bool, p: seq<nat>): (base: seq<nat>)
    requires |b| > 0 && |p| == |b|
    ensures |base| == BaseSize(b, c, left)
  {
    BigParts(b, c);
    var s, e := BigStart(b, c), BigEnd(b, c);
    seq(BaseSize(b, c, left), r requires 0 <= r < BaseSize(b, c, left) => p[SlotAt(left, s, e, r)])
  }

  /** What a row of the base holds: c, then a character on the side scanned. */
  lemma BaseRow(b: Block, c: byte, left: bool, p: seq<nat>, r: nat)
    requires Grouped(b, p) && r < BaseSize(b, c, left)
    ensures 0 <= SlotAt(left, BigStart(b, c), BigEnd(b, c), r) < |b|
    ensures var x := Base(b, c, left, p)[r];
            x < |b| && b[x] == c && if left then b[Wrap(|b|, x + 1)] < c else b[Wrap(|b|, x + 1)] > c
  {
    hide Pair, Start;
    BigParts(b, c);
    var q := SlotAt(left, BigStart(b, c), BigEnd(b, c), r);
    PairParts(b, p[q], c);
    RowsBetween(b, p, q, Code(c, 0), Code(c, 255));
    RowsBetween(b, p, q, Code(c, c), Code(c, 255));
    RowsBetween(b, p, q, Code(c, 0), Code(c, c));
  }

  lemma OnceIsOnSide(b: Block, c: byte, left: bool, x: nat)
    requires |b| >= 2 && x < |b| && b[x] == c && if left then b[Wrap(|b|, x + 1)] < c else b[Wrap(|b|, x + 1)] > c
    ensures OnSide(b, c, left, x)
  {
    assert Char(b, x + 1) == b[Wrap(|b|, x + 1)];
    assert Against(b, x, c, 2) == Against(b, x + 1, c, 1);
    AgainstMore(b, x, c, 2, |b| - 2);
  }

  /** With its other small buckets in order, the big bucket has what a scan starts from. */
  lemma BaseOnce(b: Block, rk: seq<nat>, c: byte, left: bool, p: seq<nat>)
    requires |b| >= 2 && |rk| == |b| && Ranks(b, rk) && Grouped(b, p)
    requires forall d: byte :: d != c ==> BucketSorted(b, rk, p, Code(c, d))
    ensures Once(b, rk, c, left, Base(b, c, left, p))
  {
    hide Pair, Start, Ranks, OnSide, BucketSorted, BaseSize, BigStart, BigEnd;
    var base := Base(b, c, left, p);
    forall r | 0 <= r < |base|
      ensures base[r] < |b| && b[base[r]] == c && OnSide(b, c, left, base[r])
      ensures if left then b[Wrap(|b|, base[r] + 1)] < c else b[Wrap(|b|, base[r] + 1)] > c
    {
      BaseRow(b, c, left, p, r);
      OnceIsOnSide(b, c, left, base[r]);
    }
    forall r, t | 0 <= r < t < |base|
      ensures base[r] != base[t] && InDirection(rk, left, base[r], base[t])
    {
      BaseOrder(b, rk, c, left, p, r, t);
    }
  }

  lemma BaseOrder(b: Block, rk: seq<nat>, c: byte, left: bool, p: seq<nat>, r: nat, t: nat)
    requires |b| >= 2 && Ranks(b, rk) && Grouped(b, p)
    requires forall d: byte :: d != c ==> BucketSorted(b, rk, p, Code(c, d))
    requires r < t < BaseSize(b, c, left)
    ensures var base := Base(b, c, left, p);
            base[r] < |b| && base[t] < |b| && base[r] != base[t] && InDirection(rk, left, base[r], base[t])
  {
    hide Pair, Start, Ranks, BucketSorted, BaseSize, BigStart, BigEnd;
    var s, e := BigStart(b, c), BigEnd(b, c);
    var base := Base(b, c, left, p);
    BaseRow(b, c, left, p, r);
    BaseRow(b, c, left, p, t);
    PairParts(b, base[r], c);
    PairParts(b, base[t], c);
    var i, j := SlotAt(left, s, e, r), SlotAt(left, s, e, t);
    if left { RowsOrdered(b, rk, p, i, j); } else { RowsOrdered(b, rk, p, j, i); }
  }

  /** Nothing that belongs in the base is missing from it. */
  lemma BaseAll(b: Block, c: byte, left: bool, p: seq<nat>, x: nat)
    requires Grouped(b, p) && x < |b| && b[x] == c
    requires if left then b[Wrap(|b|, x + 1)] < c else b[Wrap(|b|, x + 1)] > c
    ensures x in Base(b, c, left, p)
  {
    hide Pair, Start;
    var q := PermSurjective(p, |b|, x);
    PairParts(b, x, c);
    BigParts(b, c);
    RowsBetween(b, p, q, Code(c, 0), Code(c, 255));
    RowsBetween(b, p, q, Code(c, c), Code(c, 255));
    RowsBetween(b, p, q, Code(c, 0), Code(c, c));
    var r := if left then q - BigStart(b, c) else BigEnd(b, c) - 1 - q;
    assert Base(b, c, left, p)[r] == x;
  }
}
