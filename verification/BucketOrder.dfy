/** The order in which the main sorter takes the big buckets: from the least to the most full. */
module BucketOrder {
  import opened Rotations
  import opened Rearrange
  import opened ShellSort
  import opened MainSimpleSort

  /** Bucket starts do not decrease, so this is plain subtraction on them. */
  function Minus(a: nat, c: nat): nat {
    if a >= c then a - c else 0
  }

  /** The big buckets' sizes. */
  function BigFreqs(ftab: seq<nat>): (f: seq<nat>)
    requires |ftab| == 0x1_0001
    ensures |f| == 256
  {
    seq(256, c requires 0 <= c < 256 => Minus(ftab[256 * (c + 1)], ftab[256 * c]))
  }

  /** Moves the bucket at j - h into the hole at j if it is larger than the one in hand. */
  method ShiftBucket(order: array<nat>, freq: seq<nat>, ghost i: int, h: nat, j: int, vv: nat, ghost f: seq<nat>)
    returns (moved: bool)
    requires Indexed(f, freq) && |f| == order.Length && 0 <= j - h && i < |f|
    requires Inserting(f, order[..], freq, 0, i, h, j) && vv == f[i]
    modifies order
    ensures moved ==> Inserting(f, order[..], freq, 0, i, h, j - h)
    ensures !moved ==> order[..] == old(order[..]) && HoleFits(f, order[..], freq, 0, i, h, j)
  {
    InsertingIndexed(f, order[..], freq, 0, i, h, j);
    hide Inserting;
    moved := freq[order[j - h]] > freq[vv];
    if moved {
      InsertingStep(f, order[..], freq, 0, i, h, j);
      order[j] := order[j - h];
    }
  }

  /** Moves entry i leftwards past larger big buckets. */
  method InsertBucket(order: array<nat>, freq: seq<nat>, i: nat, h: nat)
    requires Indexed(order[..], freq) && 0 < h <= i < order.Length && order[i] < |freq|
    modifies order
    ensures Indexed(order[..], freq) && Rearranged(old(order[..]), order[..], 0, i)
    ensures h == 1 && SortedBetween(old(order[..]), freq, 0, i - 1) ==> SortedBetween(order[..], freq, 0, i)
  {
    ghost var f := order[..];
    hide Rearranged, SortedBetween, Inserting, Shifted, Indexed;
    var vv := order[i];
    var j: int := i;
    InsertingStart(f, freq, 0, i, h);
    while true
      invariant h <= j <= i
      invariant Inserting(f, order[..], freq, 0, i, h, j)
      decreases j
    {
      var moved := ShiftBucket(order, freq, i, h, j, vv, f);
      if !moved { break; }
      j := j - h;
      if j <= h - 1 { break; }
    }
    Place(order, j, vv, f, freq, 0, i, h);
  }

  method BucketPass(order: array<nat>, freq: seq<nat>, h: nat)
    requires Indexed(order[..], freq) && order.Length == 256 && 0 < h <= 121
    modifies order
    ensures Indexed(order[..], freq) && Rearranged(old(order[..]), order[..], 0, 255)
    ensures h == 1 ==> SortedBetween(order[..], freq, 0, 255)
  {
    ghost var f := order[..];
    OneSorted(f, freq, 0, 0);
    RearrangedSelf(f, 0, 255);
    hide Rearranged, SortedBetween;
    for i := h to 256
      invariant Indexed(order[..], freq) && Rearranged(f, order[..], 0, 255)
      invariant h == 1 ==> SortedBetween(order[..], freq, 0, i - 1)
    {
      ghost var g := order[..];
      InsertBucket(order, freq, i, h);
      WidenOnce(f, g, order[..], 0, i, 255);
    }
  }

  /** Every character once. */
  ghost predicate AllBytes(order: seq<nat>) {
    IsPerm(order, 256)
  }

  lemma StillAllBytes(f: seq<nat>, g: seq<nat>, n: nat)
    requires IsPerm(f, n) && |f| == |g| && multiset(f) == multiset(g)
    ensures IsPerm(g, n)
  {
    forall i | 0 <= i < n ensures g[i] < n { assert g[i] in multiset(f); }
    MultisetOnce(f);
    forall i, j | 0 <= i < j < n
      ensures g[i] != g[j]
    {
      if g[i] == g[j] { Twice(g, i, j); }
    }
  }

  lemma Twice(g: seq<nat>, i: nat, j: nat)
    requires i < j < |g| && g[i] == g[j]
    ensures multiset(g)[g[i]] >= 2
  {
    assert g == g[..i + 1] + g[i + 1..];
    assert g[i] in multiset(g[..i + 1]) && g[j] == g[i + 1..][j - i - 1] && g[j] in multiset(g[i + 1..]);
  }

  lemma {:induction false} MultisetOnce(f: seq<nat>)
    requires forall i, j :: 0 <= i < j < |f| ==> f[i] != f[j]
    ensures forall x :: multiset(f)[x] <= 1
    decreases |f|
  {
    if f != [] {
      var n := |f| - 1;
      MultisetOnce(f[..n]);
      assert f == f[..n] + [f[n]];
      if f[n] in multiset(f[..n]) {
        var i :| 0 <= i < n && f[..n][i] == f[n];
        assert false;
      }
    }
  }

  /** The big buckets from the least to the most full: Shell's sort once more. */
  method RunningOrder(freq: seq<nat>) returns (order: array<nat>)
    requires |freq| == 256
    ensures fresh(order) && AllBytes(order[..])
    ensures Indexed(order[..], freq) && SortedBetween(order[..], freq, 0, 255)
  {
    order := new nat[256](i => i);
    ghost var f := order[..];
    assert IsPerm(f, 256);
    RearrangedSelf(f, 0, 255);
    hide Rearranged, SortedBetween;
    var h := 1;
    h := 3 * h + 1;
    while h <= 256
      invariant h in {4, 13, 40, 121, 364} && order[..] == f
      decreases 364 - h
    {
      h := 3 * h + 1;
    }
    while true
      invariant h in {4, 13, 40, 121, 364}
      invariant Indexed(order[..], freq) && Rearranged(f, order[..], 0, 255)
      decreases h
    {
      h := h / 3;
      ghost var g := order[..];
      BucketPass(order, freq, h);
      RearrangedTransitive(f, g, order[..], 0, 255);
      if h == 1 { break; }
    }
    SameBytes(f, order[..]);
  }

  lemma SameBytes(f: seq<nat>, g: seq<nat>)
    requires IsPerm(f, 256) && Rearranged(f, g, 0, 255)
    ensures AllBytes(g)
  {
    StillAllBytes(f, g, 256);
  }
}
