/** The theory of the doubling sort: buckets of rotations that agree on their first
    characters, headed by set bits, and how sorting a bucket by the classes found one depth
    further on doubles the number of characters that are decided. */
module Buckets {
  import opened Rotations
  import opened Permutations
  import opened Rearrange

  /** p is sorted to depth characters up to and including position i, and heads[i] tells
      whether position i starts a new bucket at that depth. */
  ghost predicate HeadAt(b: Block, p: seq<nat>, heads: seq<bool>, i: nat, depth: nat)
    requires |b| > 0 && 0 < i < |p| && i < |heads|
  {
    var c := Cmp(b, p[i - 1], p[i], depth);
    c <= 0 && (heads[i] <==> c != 0)
  }

  /** How many characters are decided at position i. */
  function DepthAt(H: nat, done: nat, i: nat): nat { if i < done then 2 * H else H }

  /** All rotations are sorted to H characters, those before position done to 2 * H, and the
      set bits are exactly the first positions of the classes of equal rotations. */
  ghost predicate Refined(b: Block, p: seq<nat>, heads: seq<bool>, H: nat, done: nat) {
    && |b| > 0 && IsPerm(p, |b|) && |heads| > |b| + 1 && done <= |b|
    && heads[0] && heads[|b|] && !heads[|b| + 1]
    && forall i :: 0 < i < |b| ==> HeadAt(b, p, heads, i, DepthAt(H, done, i))
  }

  /** The header of the bucket of position i. */
  function HeaderOf(heads: seq<bool>, i: nat): (j: nat)
    requires i < |heads|
    ensures j <= i
  {
    if heads[i] || i == 0 then i else HeaderOf(heads, i - 1)
  }

  lemma {:induction false} HeaderOrder(heads: seq<bool>, i: nat, j: nat)
    requires i <= j < |heads|
    ensures HeaderOf(heads, i) <= HeaderOf(heads, j)
    ensures HeaderOf(heads, i) == HeaderOf(heads, j) <==> forall k :: i < k <= j ==> !heads[k]
    decreases j
  {
    if i < j && !heads[j] { HeaderOrder(heads, i, j - 1); }
  }

  /** Without a header in between, two rotations agree to depth H. */
  lemma {:induction false} SameBucket(b: Block, p: seq<nat>, heads: seq<bool>, H: nat, done: nat, i: nat, j: nat)
    requires Refined(b, p, heads, H, done) && done <= i + 1 && i <= j < |b|
    requires forall k :: i < k <= j ==> !heads[k]
    ensures Cmp(b, p[i], p[j], H) == 0
    decreases j
  {
    if i == j {
      CmpReflexive(b, p[i], H);
    } else {
      SameBucket(b, p, heads, H, done, i, j - 1);
      assert HeadAt(b, p, heads, j, DepthAt(H, done, j));
      CmpTransitive(b, p[i], p[j - 1], p[j], H);
    }
  }

  /** Depth H is decided at every position, whether refined already or not. */
  lemma HeadAtShallow(b: Block, p: seq<nat>, heads: seq<bool>, H: nat, done: nat, i: nat)
    requires Refined(b, p, heads, H, done) && 0 < i < |b|
    ensures Cmp(b, p[i - 1], p[i], H) <= 0
    ensures i >= done && heads[i] ==> Cmp(b, p[i - 1], p[i], H) < 0
  {
    assert HeadAt(b, p, heads, i, DepthAt(H, done, i));
    CmpSplit(b, p[i - 1], p[i], H, H);
  }

  lemma {:induction false} NonDecreasing(b: Block, p: seq<nat>, heads: seq<bool>, H: nat, done: nat, i: nat, j: nat)
    requires Refined(b, p, heads, H, done) && i <= j < |b|
    ensures Cmp(b, p[i], p[j], H) <= 0
    decreases j
  {
    if i == j {
      CmpReflexive(b, p[i], H);
    } else {
      NonDecreasing(b, p, heads, H, done, i, j - 1);
      HeadAtShallow(b, p, heads, H, done, j);
      CmpTransitive(b, p[i], p[j - 1], p[j], H);
    }
  }

  /** A header in between separates two rotations at depth H. */
  lemma OtherBucket(b: Block, p: seq<nat>, heads: seq<bool>, H: nat, i: nat, j: nat, k: nat)
    requires Refined(b, p, heads, H, 0) && i < k <= j < |b| && heads[k]
    ensures Cmp(b, p[i], p[j], H) < 0
  {
    NonDecreasing(b, p, heads, H, 0, i, k - 1);
    NonDecreasing(b, p, heads, H, 0, k, j);
    HeadAtShallow(b, p, heads, H, 0, k);
    CmpTransitive(b, p[i], p[k - 1], p[k], H);
    CmpTransitive(b, p[i], p[k], p[j], H);
  }

  // ---- classes one depth further on ----

  /** h places before x on the circle of n positions. */
  function Back(n: nat, x: nat, h: nat): (r: nat)
    requires x < n && h <= n
    ensures r < n || (h == 0 && r == x)
  {
    if x >= h then x - h else x - h + n
  }

  /** ec orders the rotations by their characters H..2H-1. */
  ghost predicate OrdersNext(b: Block, ec: seq<nat>, H: nat) {
    && |b| > 0 && |ec| == |b|
    && forall x: nat, y: nat :: x < |b| && y < |b| ==> (ec[x] < ec[y] <==> Cmp(b, x + H, y + H, H) < 0)
  }

  /** The position h places after x holds the rotation that x reads from its character h on. */
  lemma CmpBack(b: Block, u: nat, v: nat, H: nat)
    requires |b| > 0 && u < |b| && v < |b| && H <= |b|
    ensures Cmp(b, Back(|b|, u, H) + H, Back(|b|, v, H) + H, H) == Cmp(b, u, v, H)
  {
    CmpWrap(b, u, Back(|b|, v, H) + H, H);
    CmpWrap(b, u, v, H);
  }

  lemma HeadersOrder(b: Block, p: seq<nat>, heads: seq<bool>, H: nat, i: nat, j: nat)
    requires Refined(b, p, heads, H, 0) && i < |b| && j < |b|
    ensures HeaderOf(heads, i) < HeaderOf(heads, j) <==> Cmp(b, p[i], p[j], H) < 0
  {
    var lo, hi := if i <= j then i else j, if i <= j then j else i;
    HeaderOrder(heads, lo, hi);
    if HeaderOf(heads, lo) == HeaderOf(heads, hi) {
      SameBucket(b, p, heads, H, 0, lo, hi);
    } else {
      var k :| lo < k <= hi && heads[k];
      OtherBucket(b, p, heads, H, lo, hi, k);
    }
    CmpAntisymmetric(b, p[i], p[j], H);
  }

  /** Handing each rotation the header number of the rotation H places further on orders
      the rotations by that further stretch. */
  lemma ClassesOrderNext(b: Block, p: seq<nat>, heads: seq<bool>, H: nat, ec: seq<nat>)
    requires Refined(b, p, heads, H, 0) && 0 < H <= |b| && |ec| == |b|
    requires forall i :: 0 <= i < |b| ==> ec[Back(|b|, p[i], H)] == HeaderOf(heads, i)
    ensures OrdersNext(b, ec, H)
  {
    hide Cmp, HeadAt;
    forall x: nat, y: nat | x < |b| && y < |b|
      ensures ec[x] < ec[y] <==> Cmp(b, x + H, y + H, H) < 0
    {
      var i := RowAhead(b, p, H, x);
      var j := RowAhead(b, p, H, y);
      HeadersOrder(b, p, heads, H, i, j);
      CmpBack(b, p[i], p[j], H);
    }
  }

  /** The row of the rotation h places after x. */
  lemma RowAhead(b: Block, p: seq<nat>, H: nat, x: nat) returns (i: nat)
    requires IsPerm(p, |b|) && x < |b| && H <= |b|
    ensures i < |b| && Back(|b|, p[i], H) == x
  {
    var n := |b|;
    i := PermSurjective(p, n, if x + H < n then x + H else x + H - n);
  }

  // ---- refining ----

  /** Stepping over positions that are all headers: they are decided already. */
  lemma SkipSingles(b: Block, p: seq<nat>, heads: seq<bool>, H: nat, done: nat, next: nat)
    requires Refined(b, p, heads, H, done) && done <= next <= |b|
    requires forall i :: done <= i < next ==> heads[i]
    ensures Refined(b, p, heads, H, next)
  {
    forall i | 0 < i < |b|
      ensures HeadAt(b, p, heads, i, DepthAt(H, next, i))
    {
      assert HeadAt(b, p, heads, i, DepthAt(H, done, i));
      CmpSplit(b, p[i - 1], p[i], H, H);
    }
  }

  /** A bucket l..r of rotations equal to depth H. */
  ghost predicate IsBucket(n: nat, heads: seq<bool>, l: nat, r: nat) {
    && l <= r < n < |heads| && heads[l] && heads[r + 1]
    && forall i :: l < i <= r ==> !heads[i]
  }

  /** newHeads marks, within l..r, the places where the class changes. */
  ghost predicate Remarked(p: seq<nat>, ec: seq<nat>, heads: seq<bool>, newHeads: seq<bool>, l: nat, r: nat)
    requires Indexed(p, ec)
  {
    && |newHeads| == |heads| && l <= r < |p| && r < |heads|
    && (forall i {:trigger newHeads[i]} :: 0 <= i < |heads| && !(l < i <= r) ==> newHeads[i] == heads[i])
    && forall i {:trigger newHeads[i]} :: l < i <= r ==> (newHeads[i] <==> ec[p[i - 1]] != ec[p[i]])
  }

  /** Within a bucket, the next H characters decide 2 * H. */
  lemma DecideNext(b: Block, ec: seq<nat>, H: nat, x: nat, y: nat)
    requires OrdersNext(b, ec, H) && x < |b| && y < |b| && Cmp(b, x, y, H) == 0
    ensures ec[x] <= ec[y] <==> Cmp(b, x, y, 2 * H) <= 0
    ensures ec[x] == ec[y] <==> Cmp(b, x, y, 2 * H) == 0
  {
    CmpSplit(b, x, y, H, H);
    CmpAntisymmetric(b, x + H, y + H, H);
    assert ec[x] < ec[y] <==> Cmp(b, x + H, y + H, H) < 0;
    assert ec[y] < ec[x] <==> Cmp(b, y + H, x + H, H) < 0;
  }

  /** After the bucket has been rearranged every entry still agrees with its neighbours
      outside as it did. */
  lemma StillInBucket(b: Block, p: seq<nat>, q: seq<nat>, heads: seq<bool>, H: nat, l: nat, r: nat, k: nat)
    requires Refined(b, p, heads, H, l) && IsBucket(|b|, heads, l, r)
    requires Rearranged(p, q, l, r) && l <= k <= r
    ensures q[k] < |b| && Cmp(b, q[k], p[l], H) == 0 && Cmp(b, q[k], p[r], H) == 0
  {
    var m := RearrangedFrom(p, q, l, r, k);
    SameBucket(b, p, heads, H, l, l, m);
    SameBucket(b, p, heads, H, l, m, r);
    CmpAntisymmetric(b, p[l], p[m], H);
  }

  lemma PermRearranged(p: seq<nat>, q: seq<nat>, n: nat, lo: int, hi: int)
    requires IsPerm(p, n) && Rearranged(p, q, lo, hi)
    ensures IsPerm(q, n)
  {
    forall i | 0 <= i < n ensures q[i] < n {
      assert q[i] in multiset(p);
    }
    forall i, j | 0 <= i < j < n ensures q[i] != q[j] {
      if q[i] == q[j] {
        Twice(q, i, j);
        AtMostOnce(p, q[i]);
      }
    }
  }

  lemma Twice(s: seq<nat>, i: nat, j: nat)
    requires i < j < |s| && s[i] == s[j]
    ensures multiset(s)[s[i]] >= 2
  {
    assert s == s[..j] + s[j..];
    assert s[i] in s[..j] && s[j] in s[j..];
    assert s[i] == s[..j][i] && s[j] == s[j..][0];
  }

  lemma {:induction false} AtMostOnce(s: seq<nat>, x: nat)
    requires forall i, j :: 0 <= i < j < |s| ==> s[i] != s[j]
    ensures multiset(s)[x] <= 1
  {
    if s != [] {
      var k := |s| - 1;
      AtMostOnce(s[..k], x);
      assert s == s[..k] + [s[k]];
      if x == s[k] { assert x !in s[..k]; }
    }
  }

  /** Sorting bucket l..r by class and marking the changes extends the refined part past it. */
  lemma RefineBucket(b: Block, p: seq<nat>, q: seq<nat>, heads: seq<bool>, newHeads: seq<bool>,
                     ec: seq<nat>, H: nat, l: nat, r: nat)
    requires Refined(b, p, heads, H, l) && IsBucket(|b|, heads, l, r)
    requires OrdersNext(b, ec, H) && Indexed(q, ec)
    requires Rearranged(p, q, l, r) && SortedBetween(q, ec, l, r)
    requires Remarked(q, ec, heads, newHeads, l, r)
    ensures Refined(b, q, newHeads, H, r + 1)
  {
    PermRearranged(p, q, |b|, l, r);
    var done := r + 1;
    forall i | 0 < i < |b|
      ensures HeadAt(b, q, newHeads, i, DepthAt(H, done, i))
    {
      RefinedAt(b, p, q, heads, newHeads, ec, H, l, r, i);
    }
  }

  lemma RefinedAt(b: Block, p: seq<nat>, q: seq<nat>, heads: seq<bool>, newHeads: seq<bool>,
                  ec: seq<nat>, H: nat, l: nat, r: nat, i: nat)
    requires Refined(b, p, heads, H, l) && IsBucket(|b|, heads, l, r)
    requires OrdersNext(b, ec, H) && Indexed(q, ec)
    requires Rearranged(p, q, l, r) && SortedBetween(q, ec, l, r)
    requires Remarked(q, ec, heads, newHeads, l, r)
    requires 0 < i < |b|
    ensures HeadAt(b, q, newHeads, i, DepthAt(H, r + 1, i))
  {
    hide OrdersNext;
    assert HeadAt(b, p, heads, i, DepthAt(H, l, i));
    if l < i <= r {
      StillInBucket(b, p, q, heads, H, l, r, i - 1);
      StillInBucket(b, p, q, heads, H, l, r, i);
      CmpAntisymmetric(b, q[i], p[l], H);
      CmpTransitive(b, q[i - 1], p[l], q[i], H);
      assert Key(q, ec, i - 1) <= Key(q, ec, i);
      DecideNext(b, ec, H, q[i - 1], q[i]);
    } else if i == l {
      StillInBucket(b, p, q, heads, H, l, r, l);
      CmpEqualLeft(b, q[l], p[l], p[l - 1], H);
      CmpSplit(b, q[l - 1], q[l], H, H);
    } else if i == r + 1 {
      StillInBucket(b, p, q, heads, H, l, r, r);
      CmpEqualLeft(b, q[r], p[r], p[r + 1], H);
    } else {
      assert q[i - 1] == p[i - 1] && q[i] == p[i];
    }
  }

  // ---- the end of the doubling ----

  /** A fully refined pass is the starting point of the next one. */
  lemma NextDepth(b: Block, p: seq<nat>, heads: seq<bool>, H: nat)
    requires Refined(b, p, heads, H, |b|)
    ensures Refined(b, p, heads, 2 * H, 0)
  {
    forall i | 0 < i < |b|
      ensures HeadAt(b, p, heads, i, DepthAt(2 * H, 0, i))
    {
      assert HeadAt(b, p, heads, i, DepthAt(H, |b|, i));
    }
  }

  /** Once the depth has reached the block length, or every rotation has a bucket to itself,
      the order is the order of the whole rotations. */
  lemma RefinedIsSorted(b: Block, p: seq<nat>, heads: seq<bool>, H: nat)
    requires Refined(b, p, heads, H, 0)
    requires H > |b| || forall i :: 0 < i < |b| ==> heads[i]
    ensures IsRotationOrder(b, p)
  {
    forall i, j | 0 <= i < j < |b|
      ensures Cmp(b, p[i], p[j], |b|) <= 0
    {
      NonDecreasing(b, p, heads, H, 0, i, j);
      if H > |b| {
        CmpBeyond(b, p[i], p[j], H);
      } else {
        OtherBucket(b, p, heads, H, i, j, j);
        CmpSplit(b, p[i], p[j], H, |b| - H);
      }
    }
  }
}
