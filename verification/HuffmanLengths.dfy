/** The code lengths of an alphabet: repeated merging of the two lightest nodes, and, when a
    code comes out too long, another round with the weights halved. */
module HuffmanLengths {
  import opened Powers
  import opened HuffmanHeap
  import opened HuffmanForest
  import opened HuffmanBest

  const MAX_ALPHA_SIZE: nat := 258

  /** Everything that holds while the heap is worked on: parent and weight describe a forest
      of nNodes nodes whose roots are exactly the heap's contents. */
  ghost predicate Building(heap: seq<nat>, weight: seq<nat>, parent: seq<int>, alpha: nat, nNodes: nat, nHeap: nat,
                           last: nat, total: nat, kids: seq<(nat, nat)>)
  {
    && |heap| == MAX_ALPHA_SIZE + 2 && |weight| == |parent| == 2 * MAX_ALPHA_SIZE
    && 1 <= alpha <= MAX_ALPHA_SIZE && nNodes + nHeap == 2 * alpha && 1 <= nHeap <= alpha
    && heap[0] == 0 && weight[0] == 0
    && HeapIndexed(heap, weight) && HeapOrdered(heap, weight, nHeap)
    && Forest(parent[..nNodes + 1], weight[..nNodes + 1], alpha, last, total, kids)
    && HoldsRoots(Content(heap, nHeap), parent[..nNodes + 1])
  }

  lemma {:induction false} HeapMember(h: seq<nat>, n: nat, x: nat) returns (i: nat)
    requires n < |h| && Content(h, n)[x] > 0
    ensures 1 <= i <= n && h[i] == x
  {
    var s := h[1..n + 1];
    assert x in s;
    var j :| 0 <= j < |s| && s[j] == x;
    i := j + 1;
  }

  lemma MemberCounted(h: seq<nat>, n: nat, i: nat)
    requires 1 <= i <= n < |h|
    ensures Content(h, n)[h[i]] > 0
  {
    assert h[1..n + 1][i - 1] == h[i];
  }

  lemma ContentWithoutTop(h: seq<nat>, n: nat)
    requires 1 <= n < |h|
    ensures Content(h[1 := h[n]], n - 1) == Content(h, n) - multiset{h[1]}
  {
    var s, t := h[1..n + 1], h[1 := h[n]][1..n];
    if n == 1 {
      assert s == [h[1]] && t == [];
    } else {
      var mid := h[2..n];
      assert s == [h[1]] + (mid + [h[n]]);
      assert t == [h[n]] + mid;
    }
  }

  lemma RemoveTop(h: seq<nat>, w: seq<nat>, n: nat)
    requires 1 <= n < |h| && HeapIndexed(h, w) && HeapOrdered(h, w, n)
    ensures HeapIndexed(h[1 := h[n]], w) && OrderedBelow(h[1 := h[n]], w, n - 1, 1)
  {
  }

  /** Takes the lightest node out of the heap. */
  method TakeLightest(heap: array<nat>, weight: array<nat>, nHeap: nat) returns (top: nat)
    requires heap != weight && 1 <= nHeap < heap.Length && HeapIndexed(heap[..], weight[..])
    requires HeapOrdered(heap[..], weight[..], nHeap) && heap[0] == 0
    modifies heap
    ensures HeapIndexed(heap[..], weight[..]) && HeapOrdered(heap[..], weight[..], nHeap - 1) && heap[0] == 0
    ensures old(Content(heap[..], nHeap))[top] > 0
    ensures Content(heap[..], nHeap - 1) == old(Content(heap[..], nHeap)) - multiset{top}
    ensures top < weight.Length
    ensures forall k: nat :: old(Content(heap[..], nHeap))[k] > 0 ==> k < weight.Length && weight[top] <= weight[k]
  {
    hide HeapOrdered, OrderedBelow, Content;
    ghost var h, w := heap[..], weight[..];
    top := heap[1];
    MemberCounted(h, nHeap, 1);
    forall k: nat | Content(h, nHeap)[k] > 0
      ensures k < |w| && w[top] <= w[k]
    {
      var i := HeapMember(h, nHeap, k);
      TopIsLightest(h, w, nHeap, i);
    }
    RemoveTop(h, w, nHeap);
    ContentWithoutTop(h, nHeap);
    heap[1] := heap[nHeap];
    EmptyContent(heap[..]);
    DownHeap(heap, weight, nHeap - 1);
    EmptyContent(heap[..]);
  }

  lemma EmptyContent(h: seq<nat>)
    requires |h| > 0
    ensures Content(h, 0) == multiset{}
  {
  }

  lemma AddBottom(h: seq<nat>, w: seq<nat>, n: nat, x: nat)
    requires 1 <= n < |h| && HeapIndexed(h, w) && HeapOrdered(h, w, n - 1) && x < |w|
    ensures var g := h[n := x];
            && HeapIndexed(g, w) && OrderedBut(g, w, n, n)
            && Content(g, n) == Content(h, n - 1) + multiset{x}
  {
    assert h[n := x][1..n + 1] == h[1..n] + [x];
  }

  /** Puts node x into the heap. */
  method Insert(heap: array<nat>, weight: array<nat>, nHeap: nat, x: nat)
    requires heap != weight && 1 <= nHeap < heap.Length && HeapIndexed(heap[..], weight[..])
    requires HeapOrdered(heap[..], weight[..], nHeap - 1) && heap[0] == 0
    requires x < weight.Length && weight[0] == 0
    modifies heap
    ensures HeapIndexed(heap[..], weight[..]) && HeapOrdered(heap[..], weight[..], nHeap) && heap[0] == 0
    ensures Content(heap[..], nHeap) == old(Content(heap[..], nHeap - 1)) + multiset{x}
  {
    hide HeapOrdered, OrderedBut, Content;
    AddBottom(heap[..], weight[..], nHeap, x);
    heap[nHeap] := x;
    UpHeap(heap, weight, nHeap);
  }

  // ---- one merge ----

  lemma LightestPair(c: multiset<nat>, par: seq<int>, w: seq<nat>, n1: nat, n2: nat)
    requires |par| <= |w| && HoldsRoots(c, par) && c[n1] > 0 && (c - multiset{n1})[n2] > 0
    requires forall k: nat :: c[k] > 0 ==> k < |w| && w[n1] <= w[k]
    requires forall k: nat :: (c - multiset{n1})[k] > 0 ==> k < |w| && w[n2] <= w[k]
    ensures TwoLightest(par, w[..|par|], n1, n2)
  {
    assert c[n1] == 1 && c[n2] == 1;
    forall k | 1 <= k < |par| && par[k] == -1 && k != n1 && k != n2 ensures w[n2] <= w[k] {
      assert IsRoot(par, k);
      assert (c - multiset{n1})[k] == 1;
    }
    assert c[n2] > 0;
  }

  lemma RootsAfterMerge(c: multiset<nat>, par: seq<int>, n1: nat, n2: nat)
    requires HoldsRoots(c, par) && IsRoot(par, n1) && IsRoot(par, n2) && n1 != n2
    ensures HoldsRoots(c - multiset{n1} - multiset{n2} + multiset{|par|}, Merged(par, n1, n2))
  {
    var par1 := Merged(par, n1, n2);
    var c1 := c - multiset{n1} - multiset{n2} + multiset{|par|};
    forall k: nat ensures c1[k] == if IsRoot(par1, k) then 1 else 0 {
      assert c[k] == if IsRoot(par, k) then 1 else 0;
      assert c[|par|] == if IsRoot(par, |par|) then 1 else 0;
    }
  }

  /** Changing weights beyond the nodes in the heap leaves its order alone. */
  lemma OrderKept(h: seq<nat>, w: seq<nat>, n: nat, x: nat, v: nat)
    requires n < |h| && HeapIndexed(h, w) && HeapOrdered(h, w, n) && x < |w|
    requires Content(h, n)[x] == 0
    ensures HeapIndexed(h, w[x := v]) && HeapOrdered(h, w[x := v], n)
  {
    forall i | 1 <= i <= n ensures h[i] != x { MemberCounted(h, n, i); }
    forall i | 2 <= i <= n ensures w[x := v][h[i / 2]] <= w[x := v][h[i]] {
      assert w[h[i / 2]] <= w[h[i]];
      assert h[i] != x && h[i / 2] != x;
    }
  }

  /** Takes the two lightest nodes, lightest first. */
  method TakePair(heap: array<nat>, weight: array<nat>, nHeap: nat, ghost par: seq<int>) returns (n1: nat, n2: nat)
    requires heap != weight && 2 <= nHeap < heap.Length && HeapIndexed(heap[..], weight[..])
    requires HeapOrdered(heap[..], weight[..], nHeap) && heap[0] == 0
    requires |par| <= weight.Length && HoldsRoots(Content(heap[..], nHeap), par)
    modifies heap
    ensures HeapIndexed(heap[..], weight[..]) && HeapOrdered(heap[..], weight[..], nHeap - 2) && heap[0] == 0
    ensures IsRoot(par, n1) && IsRoot(par, n2) && n1 != n2
    ensures TwoLightest(par, weight[..|par|], n1, n2)
    ensures Content(heap[..], nHeap - 2) == old(Content(heap[..], nHeap)) - multiset{n1} - multiset{n2}
  {
    hide HeapOrdered, Content, HoldsRoots, TwoLightest;
    ghost var c := Content(heap[..], nHeap);
    n1 := TakeLightest(heap, weight, nHeap);
    n2 := TakeLightest(heap, weight, nHeap - 1);
    LightestPair(c, par, weight[..], n1, n2);
    PairFacts(par, weight[..|par|], n1, n2);
  }

  lemma BuildingRoots(heap: seq<nat>, weight: seq<nat>, parent: seq<int>, alpha: nat, nNodes: nat, nHeap: nat,
                      last: nat, total: nat, kids: seq<(nat, nat)>, n1: nat, n2: nat)
    requires Building(heap, weight, parent, alpha, nNodes, nHeap, last, total, kids) && total < 0x80_0000
    requires IsRoot(parent[..nNodes + 1], n1) && IsRoot(parent[..nNodes + 1], n2) && n1 != n2
    requires TwoLightest(parent[..nNodes + 1], weight[..nNodes + 1], n1, n2)
    ensures var par, w := parent[..nNodes + 1], weight[..nNodes + 1];
            && 1 + Max(HeightOf(w[n1]), HeightOf(w[n2])) < 256
            && Forest(Merged(par, n1, n2), w + [AddWeights(w[n1], w[n2])], alpha, WeightOf(w[n2]), total,
                      kids + [(n1, n2)])
  {
    hide HeapOrdered, Content, Forest, HoldsRoots, TwoLightest, AddWeights, Merged;
    var par, w := parent[..nNodes + 1], weight[..nNodes + 1];
    MergeFits(par, w, alpha, last, total, kids, n1, n2);
    Merge(par, w, alpha, last, total, kids, n1, n2);
  }

  /** Merges the two lightest nodes of the heap into a new node. */
  method MergeTwo(heap: array<nat>, weight: array<nat>, parent: array<int>, alpha: nat, nNodes: nat, nHeap: nat,
                  ghost last: nat, ghost total: nat, ghost kids: seq<(nat, nat)>)
    returns (ghost last1: nat, ghost kids1: seq<(nat, nat)>)
    requires heap != weight && parent as object != heap && parent as object != weight
    requires Building(heap[..], weight[..], parent[..], alpha, nNodes, nHeap, last, total, kids)
    requires nHeap > 1 && total < 0x80_0000
    modifies heap, weight, parent
    ensures Building(heap[..], weight[..], parent[..], alpha, nNodes + 1, nHeap - 1, last1, total, kids1)
    ensures forall k :: 0 <= k <= alpha ==> weight[k] == old(weight[k])
  {
    hide HeapOrdered, Content, Forest, HoldsRoots, TwoLightest, AddWeights, Merged, HeightOf;
    ghost var h, par, w := heap[..], parent[..nNodes + 1], weight[..nNodes + 1];
    var n1, n2 := TakePair(heap, weight, nHeap, par);
    BuildingRoots(h, weight[..], parent[..], alpha, nNodes, nHeap, last, total, kids, n1, n2);
    last1, kids1 := WeightOf(w[n2]), kids + [(n1, n2)];
    var t := nNodes + 1;
    var x := AddWeights(weight[n1], weight[n2]);
    RootsAfterMerge(Content(h, nHeap), par, n1, n2);
    NotYetHeld(Content(h, nHeap), par, t, n1, n2);
    OrderKept(heap[..], weight[..], nHeap - 2, t, x);
    parent[n1] := t;
    parent[n2] := t;
    weight[t] := x;
    parent[t] := -1;
    MergedSlice(par, parent[..], n1, n2);
    assert weight[..t + 1] == w + [x];
    Insert(heap, weight, nHeap - 1, t);
  }

  lemma PairFacts(par: seq<int>, w: seq<nat>, n1: nat, n2: nat)
    requires |par| == |w| && TwoLightest(par, w, n1, n2)
    ensures IsRoot(par, n1) && IsRoot(par, n2) && n1 != n2
  {
  }

  lemma NotYetHeld(c: multiset<nat>, par: seq<int>, t: nat, n1: nat, n2: nat)
    requires HoldsRoots(c, par) && t == |par|
    ensures (c - multiset{n1} - multiset{n2})[t] == 0
  {
    assert c[t] == if IsRoot(par, t) then 1 else 0;
  }

  lemma MergedSlice(par: seq<int>, parent: seq<int>, n1: nat, n2: nat)
    requires n1 < |par| && n2 < |par| < |parent|
    requires parent[|par|] == -1 && parent[n1] == parent[n2] == |par|
    requires forall k :: 0 <= k < |par| && k != n1 && k != n2 ==> parent[k] == par[k]
    ensures parent[..|par| + 1] == Merged(par, n1, n2)
  {
  }

  // ---- starting and finishing a round ----

  /** Leaf weights: positive, shifted up eight bits, and not too heavy together. */
  ghost predicate LeafWeights(weight: seq<nat>, alpha: nat, total: nat) {
    && 1 <= alpha <= MAX_ALPHA_SIZE && |weight| == 2 * MAX_ALPHA_SIZE
    && (forall k :: 1 <= k <= alpha ==> weight[k] % 256 == 0 && weight[k] > 0)
    && total == LeafTotal(weight, alpha)
  }

  ghost function LeafTotal(weight: seq<nat>, m: nat): nat
    requires m < |weight|
  {
    if m == 0 then 0 else LeafTotal(weight, m - 1) + WeightOf(weight[m])
  }

  lemma {:induction false} AllRootsWeight(par: seq<int>, w: seq<nat>, weight: seq<nat>, m: nat)
    requires |par| == |w| <= |weight| && m < |par| && forall k :: 1 <= k < |par| ==> par[k] == -1 && w[k] == weight[k]
    ensures RootWeight(par, w, m) == LeafTotal(weight, m)
  {
    if m > 0 { AllRootsWeight(par, w, weight, m - 1); }
  }

  lemma SingleNodes(par: seq<int>, weight: seq<nat>, alpha: nat, total: nat)
    requires LeafWeights(weight, alpha, total) && |par| == alpha + 1
    requires forall k :: 1 <= k <= alpha ==> par[k] == -1
    ensures Forest(par, weight[..alpha + 1], alpha, 1, total, [])
  {
    var w := weight[..alpha + 1];
    forall k | 1 <= k < |par| ensures NodeOk(par, w, alpha, 1, k) {
      assert Fib(0) == 1;
      assert weight[k] >= 256;
    }
    AllRootsWeight(par, w, weight, alpha);
  }

  lemma HeldUpTo(c: multiset<nat>, par: seq<int>, i: nat)
    requires |par| > i
    requires forall k: nat :: c[k] == if 1 <= k < i then 1 else 0
    ensures forall k: nat :: (c + multiset{i})[k] == if 1 <= k < i || k == i then 1 else 0
  {
  }

  /** Puts every leaf into the heap. */
  method StartRound(heap: array<nat>, weight: array<nat>, parent: array<int>, alpha: nat, ghost total: nat)
    requires heap != weight && parent as object != heap && parent as object != weight
    requires heap.Length == MAX_ALPHA_SIZE + 2 && parent.Length == 2 * MAX_ALPHA_SIZE
    requires LeafWeights(weight[..], alpha, total)
    modifies heap, weight, parent
    ensures Building(heap[..], weight[..], parent[..], alpha, alpha, alpha, 1, total, [])
    ensures forall k :: 1 <= k <= alpha ==> weight[k] == old(weight[k])
  {
    hide HeapOrdered, Content, Forest, LeafWeights;
    ghost var w0 := weight[..];
    LeafWeightsSize(w0, alpha, total);
    for i := 0 to heap.Length
      modifies heap
      invariant forall k :: 0 <= k < i ==> heap[k] == 0
    {
      heap[i] := 0;
    }
    weight[0] := 0;
    parent[0] := -2;
    ghost var w := weight[..];
    LeafWeightsZero(w0, w, alpha, total);
    var nHeap := 0;
    EmptyContent(heap[..]);
    EmptyOrdered(heap[..], w);
    for i := 1 to alpha + 1
      modifies heap, parent
      invariant nHeap == i - 1 && weight[..] == w && heap[0] == 0
      invariant HeapIndexed(heap[..], w) && HeapOrdered(heap[..], w, nHeap)
      invariant forall k :: 1 <= k < i ==> parent[k] == -1
      invariant forall k: nat :: Content(heap[..], nHeap)[k] == if 1 <= k < i then 1 else 0
    {
      parent[i] := -1;
      nHeap := nHeap + 1;
      HeldUpTo(Content(heap[..], nHeap - 1), parent[..], i);
      Insert(heap, weight, nHeap, i);
    }
    SingleNodes(parent[..alpha + 1], w, alpha, total);
  }

  lemma EmptyOrdered(h: seq<nat>, w: seq<nat>)
    requires |h| > 0 && HeapIndexed(h, w)
    ensures HeapOrdered(h, w, 0)
  {
  }

  lemma LeafWeightsSize(w: seq<nat>, alpha: nat, total: nat)
    requires LeafWeights(w, alpha, total)
    ensures 1 <= alpha <= MAX_ALPHA_SIZE && |w| == 2 * MAX_ALPHA_SIZE
  {
  }

  lemma {:induction false} LeafTotalSame(w0: seq<nat>, w: seq<nat>, m: nat)
    requires m < |w0| == |w| && forall k :: 1 <= k <= m ==> w[k] == w0[k]
    ensures LeafTotal(w, m) == LeafTotal(w0, m)
  {
    if m > 0 { LeafTotalSame(w0, w, m - 1); }
  }

  lemma LeafWeightsZero(w0: seq<nat>, w: seq<nat>, alpha: nat, total: nat)
    requires LeafWeights(w0, alpha, total) && |w| == |w0|
    requires forall k :: 1 <= k <= alpha ==> w[k] == w0[k]
    ensures LeafWeights(w, alpha, total)
  {
    LeafTotalSame(w0, w, alpha);
  }

  // ---- reading the lengths off the tree ----

  /** With one node left in the heap the forest is one tree, whose root came last. */
  lemma FinishedTree(heap: seq<nat>, weight: seq<nat>, parent: seq<int>, alpha: nat, last: nat, total: nat,
                     kids: seq<(nat, nat)>)
    requires alpha >= 1 && Building(heap, weight, parent, alpha, 2 * alpha - 1, 1, last, total, kids)
    ensures OneRoot(parent[..2 * alpha])
    ensures Forest(parent[..2 * alpha], weight[..2 * alpha], alpha, last, total, kids)
  {
    hide NodeOk, RootWeight, HeapOrdered, Parents;
    var par, c := parent[..2 * alpha], Content(heap, 1);
    var n := 2 * alpha - 1;
    assert heap[1..2] == [heap[1]];
    assert c == multiset{heap[1]};
    assert par[n] == -1;
    assert IsRoot(par, n);
    assert c[n] == 1;
    forall k | 1 <= k < |par| ensures par[k] == -1 <==> k == n {
      assert c[k] == if IsRoot(par, k) then 1 else 0;
    }
  }

  /** Writes the depth of every leaf and says whether one exceeds maxLen. */
  method MeasureDepths(parent: array<int>, len: array<nat>, alpha: nat, maxLen: nat) returns (tooLong: bool)
    requires 1 <= alpha <= len.Length && 2 * alpha <= parent.Length && len as object != parent
    requires Linked(parent[..2 * alpha])
    modifies len
    ensures forall k :: 0 <= k < alpha ==> len[k] == Depth(parent[..2 * alpha], k + 1)
    ensures tooLong <==> exists k :: 0 <= k < alpha && len[k] > maxLen
    ensures len[alpha..] == old(len[alpha..])
  {
    ghost var par := parent[..2 * alpha];
    tooLong := false;
    for i := 1 to alpha + 1
      invariant forall k :: 0 <= k < i - 1 ==> len[k] == Depth(par, k + 1)
      invariant tooLong <==> exists k :: 0 <= k < i - 1 && len[k] > maxLen
      invariant len[alpha..] == old(len[alpha..])
    {
      var j: nat, k: nat := 0, i;
      while parent[k] >= 0
        modifies {}
        invariant 1 <= k < 2 * alpha && j + Depth(par, k) == Depth(par, i)
        decreases 2 * alpha - k
      {
        k := parent[k];
        j := j + 1;
      }
      ghost var before := len[..];
      len[i - 1] := j;
      if j > maxLen {
        tooLong := true;
        assert len[i - 1] > maxLen;
      } else {
        assert forall k :: 0 <= k < i - 1 ==> len[k] == before[k];
      }
    }
  }

  /** Lowering the unit of the Kraft sum halves both sides of the equation. */
  lemma {:induction false} KraftScale(len: seq<nat>, top: nat, low: nat)
    requires low <= top && forall i :: 0 <= i < |len| ==> len[i] <= low
    requires KraftSum(len, top, |len|) == Pow2(top)
    ensures KraftSum(len, low, |len|) == Pow2(low)
    decreases top
  {
    if low < top {
      KraftHalves(len, top - 1, |len|);
      KraftScale(len, top - 1, low);
    }
  }

  lemma {:induction false} KraftHalves(len: seq<nat>, top: nat, m: nat)
    requires m <= |len| && forall i :: 0 <= i < |len| ==> len[i] <= top
    ensures KraftSum(len, top + 1, m) == 2 * KraftSum(len, top, m)
  {
    if m > 0 {
      KraftHalves(len, top, m - 1);
      assert top + 1 - len[m - 1] == (top - len[m - 1]) + 1;
    }
  }

  /** A complete code: every length in 1..maxLen, and the Kraft sum exactly one. */
  ghost predicate CompleteCode(len: seq<nat>, maxLen: nat) {
    && (forall i :: 0 <= i < |len| ==> 1 <= len[i] <= maxLen)
    && KraftSum(len, maxLen, |len|) == Pow2(maxLen)
  }

  lemma DepthsAreCode(par: seq<int>, w: seq<nat>, alpha: nat, last: nat, total: nat, kids: seq<(nat, nat)>,
                      len: seq<nat>, maxLen: nat)
    requires Forest(par, w, alpha, last, total, kids) && OneRoot(par) && alpha >= 2 && |par| == 2 * alpha
    requires total < 0x80_0000 && |len| == alpha
    requires forall k :: 0 <= k < alpha ==> len[k] == Depth(par, k + 1)
    requires forall k :: 0 <= k < alpha ==> len[k] <= maxLen
    ensures CompleteCode(len, maxLen)
  {
    hide Depth, KraftSum, Fib, HeightOf, WeightOf, Frontier, Pow2, RootWeight;
    forall k | 0 <= k < alpha ensures 1 <= len[k] {
      LeafDepth(par, w, alpha, last, total, kids, k + 1);
      assert len[k] == Depth(par, k + 1);
    }
    forall k | 1 <= k <= alpha ensures par[k] == -1 || par[k] > alpha {
      assert NodeOk(par, w, alpha, last, k);
    }
    var top := Max(HeightOf(w[|par| - 1]), maxLen);
    FrontierWhole(par, w, alpha, last, total, kids, top, alpha);
    KraftIsFrontier(par, alpha, len, top, alpha);
    KraftScale(len, top, maxLen);
  }

  // ---- halving the weights ----

  function Halved(w: nat): nat { HalfOf(WeightOf(w)) * 256 }

  function HalfOf(f: nat): nat { 1 + f / 2 }

  lemma {:induction false} HalvingShrinks(w0: seq<nat>, w: seq<nat>, m: nat)
    requires m < |w0| == |w|
    requires forall k :: 1 <= k <= m ==> WeightOf(w0[k]) > 0 && w[k] == Halved(w0[k])
    ensures LeafTotal(w, m) <= LeafTotal(w0, m)
    ensures LeafTotal(w0, m) > 2 * m ==> LeafTotal(w, m) < LeafTotal(w0, m)
  {
    if m > 0 { HalvingShrinks(w0, w, m - 1); }
  }

  /** A code that came out too long had weights above 2 to halve. */
  lemma TooLongIsHeavy(par: seq<int>, w: seq<nat>, alpha: nat, last: nat, total: nat, kids: seq<(nat, nat)>,
                       k: nat, maxLen: nat)
    requires Forest(par, w, alpha, last, total, kids) && OneRoot(par) && total < 0x80_0000
    requires 1 <= k <= alpha <= MAX_ALPHA_SIZE && Depth(par, k) > maxLen >= 12
    ensures total > 2 * alpha && total >= Fib(maxLen + 1)
  {
    hide Forest, Depth, Fib;
    LeafDepth(par, w, alpha, last, total, kids, k);
    ForestLinked(par, w, alpha, last, total, kids);
    FibMonotone(maxLen + 1, Depth(par, k));
  }

  method HalveWeights(weight: array<nat>, alpha: nat, ghost total: nat) returns (ghost total1: nat)
    requires LeafWeights(weight[..], alpha, total) && total > 2 * alpha
    modifies weight
    ensures LeafWeights(weight[..], alpha, total1) && total1 < total
    ensures forall k :: 0 <= k < alpha ==>
              LeafFreqs(weight[..], alpha)[k] == HalfOf(old(LeafFreqs(weight[..], alpha)[k]))
  {
    ghost var w0 := weight[..];
    for i := 1 to alpha + 1
      invariant forall k :: 1 <= k < i ==> weight[k] == Halved(w0[k])
      invariant forall k :: i <= k <= alpha ==> weight[k] == w0[k]
    {
      var j := weight[i] / 256;
      j := 1 + (j / 2);
      weight[i] := j * 256;
    }
    HalvingShrinks(w0, weight[..], alpha);
    total1 := LeafTotal(weight[..], alpha);
  }

  // ---- the whole computation ----

  function StartWeight(f: nat): nat { if f == 0 then 1 else f }

  /** How often the leaves occur, as far as the tree is concerned. */
  ghost function LeafFreqs(weight: seq<nat>, alpha: nat): (f: seq<nat>)
    requires alpha < |weight|
    ensures |f| == alpha && forall i :: 0 <= i < alpha ==> f[i] == WeightOf(weight[i + 1])
  {
    seq(alpha, i requires 0 <= i < alpha => WeightOf(weight[i + 1]))
  }

  ghost function Rescaled(f: nat, r: nat): nat {
    if r == 0 then StartWeight(f) else HalfOf(Rescaled(f, r - 1))
  }

  /** The frequencies that round r goes by: after r times halving them all. */
  ghost function RoundFreqs(freq: seq<nat>, r: nat): (f: seq<nat>)
    ensures |f| == |freq| && forall i :: 0 <= i < |f| ==> f[i] == Rescaled(freq[i], r)
  {
    seq(|freq|, i requires 0 <= i < |freq| => Rescaled(freq[i], r))
  }

  ghost predicate TooLong(len: seq<nat>, maxLen: nat) {
    exists i :: 0 <= i < |len| && len[i] > maxLen
  }

  /** A shortest code came out that has a code word longer than allowed. */
  ghost predicate ComesOutLong(f: seq<nat>, maxLen: nat) {
    exists len :: Shortest(f, len) && TooLong(len, maxLen)
  }

  /** The code is the shortest for the frequencies halved r times, and so often was needed. */
  ghost predicate HuffmanCode(freq: seq<nat>, len: seq<nat>, maxLen: nat, r: nat) {
    && Shortest(RoundFreqs(freq, r), len)
    && forall q: nat :: q < r ==> ComesOutLong(RoundFreqs(freq, q), maxLen)
  }

  /** Frequencies added up, an unused symbol counting as one. */
  function FreqTotal(freq: seq<nat>, m: nat): nat
    requires m <= |freq|
  {
    if m == 0 then 0 else FreqTotal(freq, m - 1) + StartWeight(freq[m - 1])
  }

  lemma {:induction false} FreqIsLeafTotal(freq: seq<nat>, w: seq<nat>, m: nat)
    requires m <= |freq| && m < |w|
    requires forall k :: 1 <= k <= m ==> w[k] == StartWeight(freq[k - 1]) * 256
    ensures LeafTotal(w, m) == FreqTotal(freq, m)
  {
    if m > 0 { FreqIsLeafTotal(freq, w, m - 1); }
  }

  /** One tree over the current leaf weights, and the depths of its leaves. */
  method Round(heap: array<nat>, weight: array<nat>, parent: array<int>, len: array<nat>, alpha: nat, maxLen: nat,
               ghost total: nat) returns (tooLong: bool)
    requires heap != weight && parent as object != heap && parent as object != weight
    requires len != heap && len != weight && len as object != parent
    requires heap.Length == MAX_ALPHA_SIZE + 2 && parent.Length == 2 * MAX_ALPHA_SIZE
    requires LeafWeights(weight[..], alpha, total) && 2 <= alpha <= len.Length
    requires total < 0x80_0000 && maxLen >= 12
    modifies heap, weight, parent, len
    ensures !tooLong ==> CompleteCode(len[..alpha], maxLen)
    ensures tooLong ==> total > 2 * alpha && LeafWeights(weight[..], alpha, total) && total >= Fib(maxLen + 1)
    ensures len[alpha..] == old(len[alpha..])
    ensures Shortest(old(LeafFreqs(weight[..], alpha)), len[..alpha]) && (tooLong <==> TooLong(len[..alpha], maxLen))
    ensures LeafFreqs(weight[..], alpha) == old(LeafFreqs(weight[..], alpha))
  {
    hide Building, LeafWeights, Forest, OneRoot, CompleteCode, Linked, Shortest, Fib;
    ghost var w0 := weight[..];
    LeafWeightsSize(w0, alpha, total);
    StartRound(heap, weight, parent, alpha, total);
    var nNodes, nHeap := alpha, alpha;
    ghost var last, kids := 1, [];
    while nHeap > 1
      invariant 1 <= nHeap && nNodes + nHeap == 2 * alpha
      invariant Building(heap[..], weight[..], parent[..], alpha, nNodes, nHeap, last, total, kids)
      invariant forall k :: 1 <= k <= alpha ==> weight[k] == w0[k]
      invariant len[alpha..] == old(len[alpha..])
      decreases nHeap
    {
      last, kids := MergeTwo(heap, weight, parent, alpha, nNodes, nHeap, last, total, kids);
      nNodes, nHeap := nNodes + 1, nHeap - 1;
    }
    FinishedTree(heap[..], weight[..], parent[..], alpha, last, total, kids);
    LeafWeightsZero(w0, weight[..], alpha, total);
    ghost var par, w := parent[..2 * alpha], weight[..2 * alpha];
    ForestLinked(par, w, alpha, last, total, kids);
    tooLong := MeasureDepths(parent, len, alpha, maxLen);
    DepthsAreShortest(par, w, alpha, last, total, kids, LeafFreqs(w0, alpha), len[..alpha]);
    assert tooLong <==> TooLong(len[..alpha], maxLen) by {
      assert forall k :: 0 <= k < alpha ==> len[..alpha][k] == len[k];
    }
    if tooLong {
      ghost var k :| 0 <= k < alpha && len[k] > maxLen;
      TooLongIsHeavy(par, w, alpha, last, total, kids, k + 1, maxLen);
    } else {
      DepthsAreCode(par, w, alpha, last, total, kids, len[..alpha], maxLen);
    }
  }

  lemma ForestLinked(par: seq<int>, w: seq<nat>, alpha: nat, last: nat, total: nat, kids: seq<(nat, nat)>)
    requires Forest(par, w, alpha, last, total, kids)
    ensures Linked(par) && 1 <= alpha < |par|
  {
  }

  /** Code lengths for an alphabet of 2 to 258 symbols with frequencies adding up to less than
      2^23: every length lies in 1..maxLen and the Kraft sum is exactly one.  Since halving
      leaves no weight above 2 alone, and trees over weights 1 and 2 are at most 12 deep, the
      rounds come to an end for every maxLen of 12 or more. */
  method MakeCodeLengths(len: array<nat>, freq: array<nat>, alphaSize: nat, maxLen: nat)
    returns (ghost rounds: nat)
    requires len != freq && 2 <= alphaSize <= MAX_ALPHA_SIZE && alphaSize <= len.Length && alphaSize <= freq.Length
    requires FreqTotal(freq[..], alphaSize) < 0x80_0000 && maxLen >= 12
    modifies len
    ensures CompleteCode(len[..alphaSize], maxLen)
    ensures len[alphaSize..] == old(len[alphaSize..])
    ensures HuffmanCode(freq[..alphaSize], len[..alphaSize], maxLen, rounds)
    ensures FreqTotal(freq[..], alphaSize) < Fib(maxLen + 1) ==> rounds == 0
  {
    hide CompleteCode, LeafWeights, FreqTotal, Shortest, Fib, TooLong, HuffmanCode;
    ghost var freqs := freq[..alphaSize];
    var heap := new nat[MAX_ALPHA_SIZE + 2];
    var weight := new nat[MAX_ALPHA_SIZE * 2];
    var parent := new int[MAX_ALPHA_SIZE * 2];
    for i := 0 to alphaSize
      modifies weight
      invariant forall k {:trigger weight[k]} :: 1 <= k <= i ==> weight[k] == StartWeight(freq[k - 1]) * 256
    {
      weight[i + 1] := (if freq[i] == 0 then 1 else freq[i]) * 256;
    }
    ghost var total := FreqTotal(freq[..], alphaSize);
    FreqsAreLeaves(freq[..], weight[..], alphaSize);
    rounds := 0;
    LeavesStart(freqs, weight[..], maxLen);
    while true
      invariant LeafWeights(weight[..], alphaSize, total) && total < 0x80_0000
      invariant LeafFreqs(weight[..], alphaSize) == RoundFreqs(freqs, rounds)
      invariant forall q: nat :: q < rounds ==> ComesOutLong(RoundFreqs(freqs, q), maxLen)
      invariant rounds == 0 ==> total == FreqTotal(freq[..], alphaSize)
      invariant rounds > 0 ==> FreqTotal(freq[..], alphaSize) >= Fib(maxLen + 1)
      invariant len[alphaSize..] == old(len[alphaSize..])
      decreases total
    {
      var tooLong := Round(heap, weight, parent, len, alphaSize, maxLen, total);
      if !tooLong { break; }
      NextRound(freqs, len[..alphaSize], maxLen, rounds);
      total := HalveWeights(weight, alphaSize, total);
      rounds := rounds + 1;
      assert LeafFreqs(weight[..], alphaSize) == RoundFreqs(freqs, rounds);
    }
    CodeFound(freqs, len[..alphaSize], maxLen, rounds);
  }

  lemma LeavesStart(freqs: seq<nat>, w: seq<nat>, maxLen: nat)
    requires |freqs| < |w| && forall k :: 1 <= k <= |freqs| ==> w[k] == StartWeight(freqs[k - 1]) * 256
    ensures LeafFreqs(w, |freqs|) == RoundFreqs(freqs, 0)
  {
  }

  lemma NextRound(freqs: seq<nat>, len: seq<nat>, maxLen: nat, r: nat)
    requires Shortest(RoundFreqs(freqs, r), len) && TooLong(len, maxLen)
    ensures ComesOutLong(RoundFreqs(freqs, r), maxLen)
    ensures forall i :: 0 <= i < |freqs| ==> RoundFreqs(freqs, r + 1)[i] == HalfOf(RoundFreqs(freqs, r)[i])
  {
    hide Shortest, TooLong;
  }

  lemma CodeFound(freqs: seq<nat>, len: seq<nat>, maxLen: nat, r: nat)
    requires Shortest(RoundFreqs(freqs, r), len)
    requires forall q: nat :: q < r ==> ComesOutLong(RoundFreqs(freqs, q), maxLen)
    ensures HuffmanCode(freqs, len, maxLen, r)
  {
    hide Shortest, ComesOutLong;
  }

  lemma FreqsAreLeaves(freq: seq<nat>, w: seq<nat>, alpha: nat)
    requires 1 <= alpha <= MAX_ALPHA_SIZE && alpha <= |freq| && |w| == 2 * MAX_ALPHA_SIZE
    requires forall k :: 1 <= k <= alpha ==> w[k] == StartWeight(freq[k - 1]) * 256
    ensures LeafWeights(w, alpha, FreqTotal(freq, alpha))
  {
    FreqIsLeafTotal(freq, w, alpha);
  }
}
