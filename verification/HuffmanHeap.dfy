/** The priority queue of the code-length construction: a binary heap of node numbers from
    index 1 on, ordered by a separate weight array, with a sentinel of weight zero at 0. */
module HuffmanHeap {

  /** Every entry is a node with a weight. */
  ghost predicate HeapIndexed(h: seq<nat>, w: seq<nat>) {
    forall i :: 0 <= i < |h| ==> h[i] < |w|
  }

  /** Every entry of 2..n but hole is at least as heavy as its parent. */
  ghost predicate OrderedBut(h: seq<nat>, w: seq<nat>, n: nat, hole: nat)
    requires HeapIndexed(h, w) && n < |h|
  {
    forall i {:trigger h[i]} :: 2 <= i <= n && i != hole ==> w[h[i / 2]] <= w[h[i]]
  }

  /** Every entry of 2..n whose parent is not hole is at least as heavy as its parent. */
  ghost predicate OrderedBelow(h: seq<nat>, w: seq<nat>, n: nat, hole: nat)
    requires HeapIndexed(h, w) && n < |h|
  {
    forall i {:trigger h[i]} :: 2 <= i <= n && i / 2 != hole ==> w[h[i / 2]] <= w[h[i]]
  }

  /** The children of hole are at least as heavy as the parent of hole. */
  ghost predicate Bridged(h: seq<nat>, w: seq<nat>, n: nat, hole: nat)
    requires HeapIndexed(h, w) && n < |h|
  {
    forall i {:trigger h[i]} :: 2 <= hole && 2 <= i <= n && i / 2 == hole ==> w[h[hole / 2]] <= w[h[i]]
  }

  ghost predicate HeapOrdered(h: seq<nat>, w: seq<nat>, n: nat)
    requires HeapIndexed(h, w) && n < |h|
  {
    OrderedBut(h, w, n, 0)
  }

  /** The entry at 1 is the lightest. */
  lemma {:induction false} TopIsLightest(h: seq<nat>, w: seq<nat>, n: nat, i: nat)
    requires HeapIndexed(h, w) && n < |h| && HeapOrdered(h, w, n) && 1 <= i <= n
    ensures w[h[1]] <= w[h[i]]
    decreases i
  {
    if i > 1 { TopIsLightest(h, w, n, i / 2); }
  }

  /** The nodes in the heap. */
  ghost function Content(h: seq<nat>, n: nat): multiset<nat>
    requires n < |h|
  {
    multiset(h[1..n + 1])
  }

  lemma ContentSwap(h: seq<nat>, n: nat, i: nat, j: nat)
    requires 1 <= i <= n < |h| && 1 <= j <= n
    ensures Content(h[i := h[j]][j := h[i]], n) == Content(h, n)
  {
    var s := h[1..n + 1];
    assert h[i := h[j]][j := h[i]][1..n + 1] == s[i - 1 := s[j - 1]][j - 1 := s[i - 1]];
  }

  /** One step up: the lighter entry at zz changes places with its parent. */
  lemma UpStep(g: seq<nat>, w: seq<nat>, n: nat, zz: nat)
    requires HeapIndexed(g, w) && 2 <= zz <= n < |g|
    requires OrderedBut(g, w, n, zz) && Bridged(g, w, n, zz) && w[g[zz]] < w[g[zz / 2]]
    ensures var f := g[zz := g[zz / 2]][zz / 2 := g[zz]];
            && HeapIndexed(f, w) && OrderedBut(f, w, n, zz / 2) && Bridged(f, w, n, zz / 2)
            && Content(f, n) == Content(g, n)
  {
    ContentSwap(g, n, zz, zz / 2);
    var f := g[zz := g[zz / 2]][zz / 2 := g[zz]];
    forall i | 2 <= i <= n && i != zz / 2 ensures w[f[i / 2]] <= w[f[i]] {
      assert w[g[zz / 2]] <= w[g[i]] || i / 2 != zz;
      assert i == zz || w[g[i / 2]] <= w[g[i]];
    }
    forall i | 2 <= zz / 2 && 2 <= i <= n && i / 2 == zz / 2 ensures w[f[zz / 2 / 2]] <= w[f[i]] {
      assert w[g[zz / 2 / 2]] <= w[g[zz / 2]];
      assert i == zz || w[g[i / 2]] <= w[g[i]];
    }
  }

  /** Lets entry z rise to its place. */
  method UpHeap(heap: array<nat>, weight: array<nat>, z: nat)
    requires heap != weight && 1 <= z < heap.Length && HeapIndexed(heap[..], weight[..])
    requires heap[0] == 0 && weight.Length > 0 && weight[0] == 0
    requires OrderedBut(heap[..], weight[..], z, z)
    modifies heap
    ensures HeapIndexed(heap[..], weight[..]) && HeapOrdered(heap[..], weight[..], z)
    ensures Content(heap[..], z) == old(Content(heap[..], z)) && heap[0] == 0
  {
    hide OrderedBut, Bridged, Content;
    ghost var w := weight[..];
    var zz := z;
    var tmp := heap[zz];
    BridgedAtEnd(heap[..], w, z);
    assert heap[..][zz := tmp] == heap[..];
    while weight[tmp] < weight[heap[zz / 2]]
      invariant 1 <= zz <= z && heap[0] == 0 && HeapIndexed(heap[..], w)
      invariant OrderedBut(heap[..][zz := tmp], w, z, zz) && Bridged(heap[..][zz := tmp], w, z, zz)
      invariant Content(heap[..][zz := tmp], z) == old(Content(heap[..], z))
      decreases zz
    {
      UpStep(heap[..][zz := tmp], w, z, zz);
      ghost var g := heap[..];
      heap[zz] := heap[zz / 2];
      assert g[zz := tmp][zz := g[zz / 2]][zz / 2 := tmp] == heap[..][zz / 2 := tmp];
      zz := zz / 2;
    }
    UpEnd(heap[..][zz := tmp], w, z, zz);
    heap[zz] := tmp;
  }

  lemma BridgedAtEnd(h: seq<nat>, w: seq<nat>, n: nat)
    requires HeapIndexed(h, w) && 1 <= n < |h|
    ensures Bridged(h, w, n, n)
  {
  }

  lemma UpEnd(g: seq<nat>, w: seq<nat>, n: nat, zz: nat)
    requires HeapIndexed(g, w) && 1 <= zz <= n < |g| && OrderedBut(g, w, n, zz)
    requires zz >= 2 ==> w[g[zz / 2]] <= w[g[zz]]
    ensures HeapOrdered(g, w, n)
  {
    forall i | 2 <= i <= n ensures w[g[i / 2]] <= w[g[i]] { }
  }

  // ---- down ----

  lemma DownStep(g: seq<nat>, w: seq<nat>, n: nat, zz: nat, yy: nat)
    requires HeapIndexed(g, w) && 1 <= zz && 2 <= yy <= n < |g| && yy / 2 == zz
    requires OrderedBelow(g, w, n, zz) && Bridged(g, w, n, zz) && w[g[yy]] <= w[g[zz]]
    requires forall i :: 2 <= i <= n && i / 2 == zz ==> w[g[yy]] <= w[g[i]]
    ensures var f := g[zz := g[yy]][yy := g[zz]];
            && HeapIndexed(f, w) && OrderedBelow(f, w, n, yy) && Bridged(f, w, n, yy)
            && Content(f, n) == Content(g, n)
  {
    ContentSwap(g, n, zz, yy);
    var f := g[zz := g[yy]][yy := g[zz]];
    forall i | 2 <= i <= n && i / 2 != yy ensures w[f[i / 2]] <= w[f[i]] {
      assert i / 2 == zz || w[g[i / 2]] <= w[g[i]];
      if i == zz { assert w[g[zz / 2]] <= w[g[yy]]; }
    }
    forall i | 2 <= i <= n && i / 2 == yy ensures w[f[yy / 2]] <= w[f[i]] {
      assert w[g[i / 2]] <= w[g[i]];
    }
  }

  lemma DownEnd(g: seq<nat>, w: seq<nat>, n: nat, zz: nat)
    requires HeapIndexed(g, w) && n < |g| && OrderedBelow(g, w, n, zz)
    requires forall i :: 2 <= i <= n && i / 2 == zz ==> w[g[zz]] <= w[g[i]]
    ensures HeapOrdered(g, w, n)
  {
    forall i | 2 <= i <= n ensures w[g[i / 2]] <= w[g[i]] { }
  }

  /** Lets the entry at 1 sink to its place. */
  method DownHeap(heap: array<nat>, weight: array<nat>, nHeap: nat)
    requires heap != weight && 1 < heap.Length && nHeap < heap.Length && HeapIndexed(heap[..], weight[..])
    requires OrderedBelow(heap[..], weight[..], nHeap, 1) && heap[0] == 0
    modifies heap
    ensures HeapIndexed(heap[..], weight[..]) && HeapOrdered(heap[..], weight[..], nHeap)
    ensures nHeap >= 1 ==> Content(heap[..], nHeap) == old(Content(heap[..], nHeap))
    ensures heap[0] == 0
  {
    hide OrderedBelow, Bridged, Content, OrderedBut;
    ghost var w := weight[..];
    var zz := 1;
    var tmp := heap[zz];
    BridgedAtTop(heap[..], w, nHeap);
    assert heap[..][zz := tmp] == heap[..];
    while true
      invariant 1 <= zz < heap.Length && (zz <= nHeap || zz == 1) && HeapIndexed(heap[..], w) && heap[0] == 0
      invariant OrderedBelow(heap[..][zz := tmp], w, nHeap, zz) && Bridged(heap[..][zz := tmp], w, nHeap, zz)
      invariant nHeap >= 1 ==> Content(heap[..][zz := tmp], nHeap) == old(Content(heap[..], nHeap))
      decreases heap.Length - zz
    {
      var yy := 2 * zz;
      ghost var g := heap[..][zz := tmp];
      if yy > nHeap {
        DownEnd(g, w, nHeap, zz);
        break;
      }
      if yy < nHeap && weight[heap[yy + 1]] < weight[heap[yy]] { yy := yy + 1; }
      if weight[tmp] < weight[heap[yy]] {
        DownEnd(g, w, nHeap, zz);
        break;
      }
      DownStep(g, w, nHeap, zz, yy);
      ghost var h := heap[..];
      heap[zz] := heap[yy];
      assert g[zz := g[yy]][yy := tmp] == heap[..][yy := tmp];
      zz := yy;
    }
    heap[zz] := tmp;
  }

  lemma BridgedAtTop(h: seq<nat>, w: seq<nat>, n: nat)
    requires HeapIndexed(h, w) && n < |h|
    ensures Bridged(h, w, n, 1)
  {
  }
}
