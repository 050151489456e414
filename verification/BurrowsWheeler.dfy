/** The Burrows-Wheeler transform: the last column of the sorted rotations, and the fact
    that counting sort on that column leads back to the block. */
module BurrowsWheeler {
  import opened Rotations
  import opened Permutations

  // ---- counting sort ranks ----

  /** How many of the first k entries are smaller than c. */
  function Less(l: seq<byte>, k: nat, c: int): (r: nat)
    requires k <= |l|
    ensures r <= k
  {
    if k == 0 then 0 else Less(l, k - 1, c) + (if l[k - 1] < c then 1 else 0)
  }

  /** How many of the first k entries equal c. */
  function Occ(l: seq<byte>, k: nat, c: int): (r: nat)
    requires k <= |l|
    ensures r <= k
  {
    if k == 0 then 0 else Occ(l, k - 1, c) + (if l[k - 1] == c then 1 else 0)
  }

  lemma {:induction false} LessNext(l: seq<byte>, k: nat, c: int)
    requires k <= |l|
    ensures Less(l, k, c + 1) == Less(l, k, c) + Occ(l, k, c)
  {
    if k > 0 { LessNext(l, k - 1, c); }
  }

  lemma {:induction false} LessMonotone(l: seq<byte>, k: nat, c: int, d: int)
    requires k <= |l| && c <= d
    ensures Less(l, k, c) <= Less(l, k, d)
  {
    if k > 0 { LessMonotone(l, k - 1, c, d); }
  }

  lemma {:induction false} LessBounds(l: seq<byte>, k: nat)
    requires k <= |l|
    ensures Less(l, k, 0) == 0 && Less(l, k, 256) == k
  {
    if k > 0 { LessBounds(l, k - 1); }
  }

  lemma {:induction false} OccMonotone(l: seq<byte>, i: nat, j: nat, c: int)
    requires i <= j <= |l|
    ensures Occ(l, i, c) <= Occ(l, j, c)
    ensures i < j && l[i] == c ==> Occ(l, i, c) < Occ(l, j, c)
    decreases j - i
  {
    if i < j {
      OccMonotone(l, i + 1, j, c);
    }
  }

  /** Where a stable sort of l puts entry i. */
  function Rank(l: seq<byte>, i: nat): (r: nat)
    requires i < |l|
    ensures r < |l|
  {
    RankInRange(l, i);
    Less(l, |l|, l[i]) + Occ(l, i, l[i])
  }

  lemma RankInRange(l: seq<byte>, i: nat)
    requires i < |l|
    ensures Less(l, |l|, l[i]) + Occ(l, i, l[i]) < Less(l, |l|, l[i] as int + 1) <= |l|
  {
    LessNext(l, |l|, l[i]);
    OccMonotone(l, i, |l|, l[i]);
  }

  /** Sorting is stable: ranks follow the bytes, and positions among equal bytes. */
  lemma RankOrder(l: seq<byte>, i: nat, j: nat)
    requires i < |l| && j < |l|
    requires l[i] < l[j] || (l[i] == l[j] && i < j)
    ensures Rank(l, i) < Rank(l, j)
  {
    if l[i] < l[j] {
      RankInRange(l, i);
      LessMonotone(l, |l|, l[i] as int + 1, l[j]);
    } else {
      OccMonotone(l, i, j, l[i]);
    }
  }

  /** sorted lists the positions of l in stable sorted order. */
  ghost predicate IsStableSort(l: seq<byte>, sorted: seq<nat>) {
    |sorted| == |l| && forall j :: 0 <= j < |l| ==> sorted[j] < |l| && Rank(l, sorted[j]) == j
  }

  function Ranks(l: seq<byte>): (t: seq<nat>)
    ensures |t| == |l| && forall i :: 0 <= i < |l| ==> t[i] == Rank(l, i)
  {
    seq(|l|, i requires 0 <= i < |l| => Rank(l, i))
  }

  lemma RanksArePerm(l: seq<byte>)
    ensures IsPerm(Ranks(l), |l|)
  {
    forall i, j | 0 <= i < j < |l|
      ensures Rank(l, i) != Rank(l, j)
    {
      if l[i] <= l[j] { RankOrder(l, i, j); } else { RankOrder(l, j, i); }
    }
  }

  lemma RankInjective(l: seq<byte>, i: nat, j: nat)
    requires i < |l| && j < |l| && Rank(l, i) == Rank(l, j)
    ensures i == j
  {
    if i != j {
      if l[i] < l[j] || (l[i] == l[j] && i < j) { RankOrder(l, i, j); } else { RankOrder(l, j, i); }
    }
  }

  /** The stable sort of l exists: the row of rank j. */
  ghost function RowOf(l: seq<byte>, j: nat): (i: nat)
    requires j < |l|
    ensures i < |l| && Rank(l, i) == j
  {
    RanksArePerm(l);
    assert exists i: nat :: i < |l| && Ranks(l)[i] == j by { var m := PermSurjective(Ranks(l), |l|, j); }
    var i: nat :| i < |l| && Ranks(l)[i] == j;
    i
  }

  ghost function StableSort(l: seq<byte>): (s: seq<nat>)
    ensures IsStableSort(l, s)
  {
    seq(|l|, j requires 0 <= j < |l| => RowOf(l, j))
  }

  /** The stable sort is the inverse of the ranks on the other side too. */
  lemma StableSortInverse(l: seq<byte>, sorted: seq<nat>, i: nat)
    requires IsStableSort(l, sorted) && i < |l|
    ensures sorted[Rank(l, i)] == i
  {
    RankInjective(l, sorted[Rank(l, i)], i);
  }

  /** There is only one stable sort, so two decoders that follow one emit the same bytes. */
  lemma StableSortUnique(l: seq<byte>, s: seq<nat>, t: seq<nat>)
    requires IsStableSort(l, s) && IsStableSort(l, t)
    ensures s == t
  {
    forall j | 0 <= j < |l| ensures s[j] == t[j] { RankInjective(l, s[j], t[j]); }
  }

  lemma StableSortOrder(l: seq<byte>, sorted: seq<nat>, j: nat, k: nat)
    requires IsStableSort(l, sorted) && j < k < |l|
    ensures l[sorted[j]] < l[sorted[k]] || (l[sorted[j]] == l[sorted[k]] && sorted[j] < sorted[k])
  {
    var x, y := sorted[j], sorted[k];
    if l[y] < l[x] || (l[y] == l[x] && y < x) { RankOrder(l, y, x); }
  }

  // ---- the inverse transform ----

  /** m bytes read by following the stable sort from row t. */
  ghost function Walk(l: seq<byte>, sorted: seq<nat>, t: nat, m: nat): (r: seq<byte>)
    requires IsStableSort(l, sorted) && t < |l|
    ensures |r| == m
    decreases m
  {
    if m == 0 then [] else [l[t]] + Walk(l, sorted, sorted[t], m - 1)
  }

  /** l is the last column of the rotations of b listed by p. */
  ghost predicate IsLastColumn(b: Block, p: seq<nat>, l: seq<byte>) {
    IsPerm(p, |b|) && |l| == |b| && forall i :: 0 <= i < |b| ==> l[i] == b[Pred(|b|, p[i])]
  }

  /** The starts of the rotations one place before each row, in stably sorted order. */
  ghost function Shifted(n: nat, p: seq<nat>, sorted: seq<nat>): (q: seq<nat>)
    requires IsPerm(p, n) && |sorted| == n
    requires forall j :: 0 <= j < n ==> sorted[j] < n
    ensures |q| == n && forall j :: 0 <= j < n ==> q[j] == Pred(n, p[sorted[j]])
  {
    seq(n, j requires 0 <= j < n => Pred(n, p[sorted[j]]))
  }

  /** One step back from two positions: the bytes there, then the rotations themselves. */
  lemma CmpPred(b: Block, i: nat, j: nat)
    requires |b| > 0 && i < |b| && j < |b|
    ensures var x, y := Pred(|b|, i), Pred(|b|, j);
            Cmp(b, x, y, |b|) == if b[x] < b[y] then -1 else if b[x] > b[y] then 1 else Cmp(b, i, j, |b| - 1)
  {
    var x, y := Pred(|b|, i), Pred(|b|, j);
    CmpWrap(b, i, y + 1, |b| - 1);
    CmpWrap(b, i, j, |b| - 1);
  }

  /** Stably sorting the preceding rotations by their first byte sorts them entirely. */
  lemma ShiftedIsRotationOrder(b: Block, p: seq<nat>, l: seq<byte>, sorted: seq<nat>)
    requires IsRotationOrder(b, p) && IsLastColumn(b, p, l) && IsStableSort(l, sorted)
    ensures IsRotationOrder(b, Shifted(|b|, p, sorted))
  {
    var n := |b|;
    var q := Shifted(n, p, sorted);
    forall j, k | 0 <= j < k < n
      ensures q[j] != q[k] && Cmp(b, q[j], q[k], n) <= 0
    {
      StableSortOrder(l, sorted, j, k);
      var x, y := sorted[j], sorted[k];
      assert x != y && p[x] != p[y];
      CmpPred(b, p[x], p[y]);
      if l[x] == l[y] {
        assert Cmp(b, p[x], p[y], n) <= 0;
        CmpSplit(b, p[x], p[y], n - 1, 1);
      }
    }
  }

  /** Row sorted[j] holds the rotation that starts one place after the rotation of row j. */
  lemma SortedStep(b: Block, p: seq<nat>, l: seq<byte>, sorted: seq<nat>, j: nat, k: nat)
    requires IsRotationOrder(b, p) && IsLastColumn(b, p, l) && IsStableSort(l, sorted)
    requires j < |b| && Cmp(b, p[j], k, |b|) == 0
    ensures Cmp(b, p[sorted[j]], k + 1, |b|) == 0
  {
    var n := |b|;
    ShiftedIsRotationOrder(b, p, l, sorted);
    var q := Shifted(n, p, sorted);
    OrderUnique(b, q, p, n, j);
    CmpTransitive(b, q[j], p[j], k, n);
    CmpSaturates(b, q[j], k, n + 1);
    CmpSplit(b, q[j], k, 1, n);
    CmpWrap(b, p[sorted[j]], k + 1, n);
  }

  /** The last byte of a rotation equal to the one at k + 1 is the block's byte at k. */
  lemma LastByte(b: Block, i: nat, k: nat)
    requires |b| > 0 && i < |b| && k < |b|
    requires Cmp(b, i, k + 1, |b|) == 0
    ensures b[Pred(|b|, i)] == b[k]
  {
    var n := |b|;
    CmpSplit(b, i, k + 1, n - 1, 1);
    assert Char(b, i + (n - 1)) == Char(b, k + 1 + (n - 1));
    assert Char(b, k + n) == b[k];
    if i > 0 { assert Char(b, i - 1 + n) == Char(b, i - 1); }
  }

  lemma {:induction false} WalkRecoversFrom(b: Block, p: seq<nat>, l: seq<byte>, sorted: seq<nat>, t: nat, k: nat)
    requires IsRotationOrder(b, p) && IsLastColumn(b, p, l) && IsStableSort(l, sorted)
    requires t < |b| && k <= |b| && Cmp(b, p[t], k + 1, |b|) == 0
    ensures Walk(l, sorted, t, |b| - k) == b[k..]
    decreases |b| - k
  {
    if k < |b| {
      LastByte(b, p[t], k);
      SortedStep(b, p, l, sorted, t, k + 1);
      WalkRecoversFrom(b, p, l, sorted, sorted[t], k + 1);
    }
  }

  /** The transform loses nothing: for every non-empty block, every rotation order of it
      (whatever the order among equal rotations) and every row holding rotation 0, walking
      the stable sort of the last column from that row emits the block. */
  lemma InverseRecoversBlock(b: Block, p: seq<nat>, l: seq<byte>, sorted: seq<nat>, origPtr: nat)
    requires IsRotationOrder(b, p) && IsLastColumn(b, p, l) && IsStableSort(l, sorted)
    requires origPtr < |b| && p[origPtr] == 0
    ensures Walk(l, sorted, sorted[origPtr], |b|) == b
  {
    hide Cmp, Walk, Rank, Char;
    var start := p[origPtr];
    CmpReflexive(b, start, |b|);
    SortedStep(b, p, l, sorted, origPtr, start);
    WalkRecoversFrom(b, p, l, sorted, sorted[origPtr], start);
    assert b[start..] == b;
  }
}
