/** Index arrays that are sorted in place by a key looked up elsewhere, and what it means to
    rearrange a range of them. */
module Rearrange {

  /** Every entry of f has a class number. */
  ghost predicate Indexed(f: seq<nat>, ec: seq<nat>) {
    forall k :: 0 <= k < |f| ==> f[k] < |ec|
  }

  function Key(f: seq<nat>, ec: seq<nat>, k: int): nat
    requires Indexed(f, ec) && 0 <= k < |f|
  {
    ec[f[k]]
  }

  ghost predicate SortedBetween(f: seq<nat>, ec: seq<nat>, lo: int, hi: int)
    requires Indexed(f, ec)
  {
    0 <= lo && hi < |f| && forall i, j :: lo <= i < j <= hi ==> Key(f, ec, i) <= Key(f, ec, j)
  }

  /** g is f with the entries lo..hi in some other order. */
  ghost predicate Rearranged(f: seq<nat>, g: seq<nat>, lo: int, hi: int) {
    && |f| == |g|
    && multiset(f) == multiset(g)
    && forall k {:trigger g[k]} :: 0 <= k < |f| && (k < lo || hi < k) ==> g[k] == f[k]
  }

  lemma RearrangedTransitive(f: seq<nat>, g: seq<nat>, h: seq<nat>, lo: int, hi: int)
    requires Rearranged(f, g, lo, hi) && Rearranged(g, h, lo, hi)
    ensures Rearranged(f, h, lo, hi)
  {
  }

  lemma SwapRearranges(f: seq<nat>, i: int, j: int, lo: int, hi: int)
    requires 0 <= lo <= i <= hi < |f| && lo <= j <= hi
    ensures Rearranged(f, f[i := f[j]][j := f[i]], lo, hi)
  {
  }

  lemma RearrangedSelf(f: seq<nat>, lo: int, hi: int)
    ensures Rearranged(f, f, lo, hi)
  {
  }

  lemma RearrangedSymmetric(f: seq<nat>, g: seq<nat>, lo: int, hi: int)
    requires Rearranged(f, g, lo, hi)
    ensures Rearranged(g, f, lo, hi)
  {
    forall k | 0 <= k < |g| && (k < lo || hi < k) ensures f[k] == g[k] { assert g[k] == f[k]; }
  }

  /** One more swap inside the range. */
  lemma SwapRearranges2(f: seq<nat>, g: seq<nat>, i: int, j: int, lo: int, hi: int)
    requires Rearranged(f, g, lo, hi) && 0 <= lo <= i <= hi < |f| && lo <= j <= hi
    ensures Rearranged(f, g[i := g[j]][j := g[i]], lo, hi)
  {
    SwapRearranges(g, i, j, lo, hi);
    RearrangedTransitive(f, g, g[i := g[j]][j := g[i]], lo, hi);
  }

  lemma SplitMultiset(f: seq<nat>, lo: int, hi: int)
    requires 0 <= lo <= hi + 1 <= |f|
    ensures multiset(f) == multiset(f[..lo]) + multiset(f[lo..hi + 1]) + multiset(f[hi + 1..])
  {
    assert f == f[..hi + 1] + f[hi + 1..];
    assert f[..hi + 1] == f[..lo] + f[lo..hi + 1];
  }

  lemma MiddlePart(a: multiset<nat>, b: multiset<nat>, c: multiset<nat>, d: multiset<nat>, x: nat)
    requires a + b + c == a + d + c && x in d
    ensures x in b
  {
    assert (a + b + c)[x] == (a + d + c)[x];
  }

  /** An entry of the rearranged range was in the range before. */
  lemma RearrangedFrom(f: seq<nat>, g: seq<nat>, lo: int, hi: int, k: int) returns (m: int)
    requires Rearranged(f, g, lo, hi) && 0 <= lo <= k <= hi < |f|
    ensures lo <= m <= hi && f[m] == g[k]
  {
    SplitMultiset(f, lo, hi);
    SplitMultiset(g, lo, hi);
    assert f[..lo] == g[..lo] && f[hi + 1..] == g[hi + 1..];
    var fm, gm := f[lo..hi + 1], g[lo..hi + 1];
    assert g[k] == gm[k - lo];
    MiddlePart(multiset(f[..lo]), multiset(fm), multiset(f[hi + 1..]), multiset(gm), g[k]);
    var d :| 0 <= d < |fm| && fm[d] == g[k];
    m := lo + d;
  }

  lemma RearrangedIndexed(f: seq<nat>, g: seq<nat>, lo: int, hi: int, ec: seq<nat>)
    requires Rearranged(f, g, lo, hi) && Indexed(f, ec)
    ensures Indexed(g, ec)
  {
    forall k | 0 <= k < |g|
      ensures g[k] < |ec|
    {
      assert g[k] in multiset(f);
    }
  }
}
