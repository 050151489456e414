/** What the Huffman construction builds, seen through its arrays: a forest given by parent
    links, with packed weights that hold a node's weight above eight bits of height. */
module HuffmanForest {
  import opened Powers

  // ---- packed weights ----

  function WeightOf(w: nat): nat { w / 256 }

  function HeightOf(w: nat): nat { w % 256 }

  function Max(a: nat, b: nat): nat { if a > b then a else b }

  /** Weights add, and the height is one more than the greater; the parts do not overlap. */
  function AddWeights(a: nat, b: nat): (r: nat)
    requires 1 + Max(HeightOf(a), HeightOf(b)) < 256
    ensures WeightOf(r) == WeightOf(a) + WeightOf(b)
    ensures HeightOf(r) == 1 + Max(HeightOf(a), HeightOf(b))
  {
    (a - a % 256) + (b - b % 256) + (1 + Max(HeightOf(a), HeightOf(b)))
  }

  /** The least weight of a node of height h: 1, 2, 3, 5, 8, ... */
  function Fib(h: nat): (r: nat)
    ensures r >= 1
  {
    if h == 0 then 1 else if h == 1 then 2 else Fib(h - 1) + Fib(h - 2)
  }

  lemma {:induction false} FibMonotone(a: nat, b: nat)
    requires a <= b
    ensures Fib(a) <= Fib(b)
    decreases b
  {
    if a < b { FibMonotone(a, b - 1); }
  }

  lemma FibValues()
    ensures Fib(13) == 610 && Fib(33) == 9227465
  {
    assert Fib(8) == 55 && Fib(9) == 89;
    assert Fib(12) == 377 && Fib(13) == 610;
    assert Fib(16) == 2584 && Fib(17) == 4181;
    assert Fib(20) == 17711 && Fib(21) == 28657;
    assert Fib(24) == 121393 && Fib(25) == 196418;
    assert Fib(28) == 832040 && Fib(29) == 1346269;
    assert Fib(32) == 5702887 && Fib(33) == 9227465;
  }

  /** Trees of modest weight are low. */
  lemma HeightBound(h: nat, weight: nat)
    requires Fib(h) <= weight
    ensures weight < 610 ==> h <= 12
    ensures weight < 0x80_0000 ==> h <= 32
  {
    hide Fib;
    FibValues();
    if h >= 13 { FibMonotone(13, h); }
    if h >= 33 { FibMonotone(33, h); }
  }

  // ---- the forest ----

  /** Links lead to later nodes; -1 marks a root. */
  ghost predicate Linked(par: seq<int>) {
    forall k :: 1 <= k < |par| ==> par[k] == -1 || k < par[k] < |par|
  }

  ghost predicate IsRoot(par: seq<int>, k: nat) {
    1 <= k < |par| && par[k] == -1
  }

  /** Facts about one node: its height needs its weight, and heights grow along links. */
  ghost predicate NodeOk(par: seq<int>, w: seq<nat>, alpha: nat, last: nat, k: nat)
    requires Linked(par) && |w| == |par| && 1 <= k < |par|
  {
    && (par[k] == -1 || (alpha < par[k] && HeightOf(w[k]) < HeightOf(w[par[k]])))
    && (k <= alpha ==> HeightOf(w[k]) == 0)
    && WeightOf(w[k]) >= Fib(HeightOf(w[k]))
    && (par[k] == -1 ==> WeightOf(w[k]) >= last)
    && (par[k] == -1 && HeightOf(w[k]) >= 1 ==> Fib(HeightOf(w[k]) - 1) <= last)
  }

  /** Node t was made of exactly the two nodes named. */
  ghost predicate Parents(par: seq<int>, t: nat, kids: (nat, nat)) {
    && 1 <= kids.0 < |par| && 1 <= kids.1 < |par| && kids.0 != kids.1
    && par[kids.0] == t && par[kids.1] == t
    && forall k {:trigger par[k]} :: 1 <= k < |par| && par[k] == t ==> k == kids.0 || k == kids.1
  }

  /** Node t weighs what the two nodes named weigh, and when it was made they were the lightest roots. */
  ghost predicate Greedy(par: seq<int>, w: seq<nat>, t: nat, kids: (nat, nat)) {
    && |w| == |par| && 1 <= kids.0 < t < |w| && 1 <= kids.1 < t && kids.0 != kids.1
    && WeightOf(w[t]) == WeightOf(w[kids.0]) + WeightOf(w[kids.1]) && w[kids.0] <= w[kids.1]
    && forall k {:trigger w[k]} :: 1 <= k < t && (par[k] == -1 || par[k] >= t) && k != kids.0 && k != kids.1 ==>
         w[kids.1] <= w[k]
  }

  /** Total weight of the roots among nodes 1..n. */
  ghost function RootWeight(par: seq<int>, w: seq<nat>, n: nat): nat
    requires n < |par| == |w|
  {
    if n == 0 then 0 else RootWeight(par, w, n - 1) + (if par[n] == -1 then WeightOf(w[n]) else 0)
  }

  /** The forest after some merges: last is the heavier weight of the latest merge, which no
      root undercuts. */
  ghost predicate Forest(par: seq<int>, w: seq<nat>, alpha: nat, last: nat, total: nat, kids: seq<(nat, nat)>) {
    && 1 <= alpha < |par| == |w| && Linked(par)
    && (forall k :: 1 <= k < |par| ==> NodeOk(par, w, alpha, last, k))
    && |kids| == |par| - 1 - alpha
    && (forall j :: 0 <= j < |kids| ==> Parents(par, alpha + 1 + j, kids[j]))
    && (forall j :: 0 <= j < |kids| ==> Greedy(par, w, alpha + 1 + j, kids[j]))
    && RootWeight(par, w, |par| - 1) == total
  }

  /** The nodes held in the heap are the roots, each once. */
  ghost predicate HoldsRoots(c: multiset<nat>, par: seq<int>) {
    forall k: nat :: c[k] == if IsRoot(par, k) then 1 else 0
  }

  // ---- merging two roots ----

  function Merged(par: seq<int>, n1: nat, n2: nat): seq<int>
    requires n1 < |par| && n2 < |par|
  {
    par[n1 := |par|][n2 := |par|] + [-1]
  }

  lemma {:induction false} RootWeightDrop(par: seq<int>, w: seq<nat>, n: nat, k: nat, t: int)
    requires n < |par| == |w| && IsRoot(par, k) && t != -1
    ensures RootWeight(par[k := t], w, n) == RootWeight(par, w, n) - (if k <= n then WeightOf(w[k]) else 0)
    ensures k <= n ==> RootWeight(par, w, n) >= WeightOf(w[k])
  {
    if n > 0 { RootWeightDrop(par, w, n - 1, k, t); }
  }

  lemma {:induction false} RootWeightExtend(par: seq<int>, w: seq<nat>, p: int, x: nat, n: nat)
    requires n < |par| == |w|
    ensures RootWeight(par + [p], w + [x], n) == RootWeight(par, w, n)
  {
    if n > 0 { RootWeightExtend(par, w, p, x, n - 1); }
  }

  /** Two roots weigh no more than all of them. */
  lemma TwoRoots(par: seq<int>, w: seq<nat>, n1: nat, n2: nat)
    requires |par| == |w| && IsRoot(par, n1) && IsRoot(par, n2) && n1 != n2
    ensures WeightOf(w[n1]) + WeightOf(w[n2]) <= RootWeight(par, w, |par| - 1)
    ensures forall x: nat :: RootWeight(Merged(par, n1, n2), w + [x], |par|) ==
              RootWeight(par, w, |par| - 1) - WeightOf(w[n1]) - WeightOf(w[n2]) + WeightOf(x)
  {
    var n, t := |par| - 1, |par|;
    RootWeightDrop(par, w, n, n1, t);
    RootWeightDrop(par[n1 := t], w, n, n2, t);
    forall x: nat
      ensures RootWeight(Merged(par, n1, n2), w + [x], |par|) ==
              RootWeight(par, w, |par| - 1) - WeightOf(w[n1]) - WeightOf(w[n2]) + WeightOf(x)
    {
      RootWeightExtend(par[n1 := t][n2 := t], w, -1, x, n);
    }
  }

  /** n1 and n2 are the two lightest roots, in this order. */
  ghost predicate TwoLightest(par: seq<int>, w: seq<nat>, n1: nat, n2: nat)
    requires |par| == |w|
  {
    && IsRoot(par, n1) && IsRoot(par, n2) && n1 != n2
    && w[n1] <= w[n2]
    && forall k {:trigger w[k]} :: 1 <= k < |par| && par[k] == -1 && k != n1 && k != n2 ==> w[n2] <= w[k]
  }

  /** The heights stay small enough for their eight bits. */
  lemma MergeFits(par: seq<int>, w: seq<nat>, alpha: nat, last: nat, total: nat, kids: seq<(nat, nat)>, n1: nat,
                  n2: nat)
    requires Forest(par, w, alpha, last, total, kids) && total < 0x80_0000
    requires IsRoot(par, n1) && IsRoot(par, n2) && n1 != n2
    ensures 1 + Max(HeightOf(w[n1]), HeightOf(w[n2])) < 256
    ensures WeightOf(w[n1]) + WeightOf(w[n2]) <= total
  {
    TwoRoots(par, w, n1, n2);
    assert NodeOk(par, w, alpha, last, n1) && NodeOk(par, w, alpha, last, n2);
    HeightBound(HeightOf(w[n1]), WeightOf(w[n1]));
    HeightBound(HeightOf(w[n2]), WeightOf(w[n2]));
  }

  /** The new node weighs at least as much as its height demands. */
  lemma NewNodeHeavy(par: seq<int>, w: seq<nat>, alpha: nat, last: nat, n1: nat, n2: nat)
    requires Linked(par) && |w| == |par| && TwoLightest(par, w, n1, n2)
    requires NodeOk(par, w, alpha, last, n1) && NodeOk(par, w, alpha, last, n2)
    ensures var h := 1 + Max(HeightOf(w[n1]), HeightOf(w[n2]));
            && WeightOf(w[n1]) + WeightOf(w[n2]) >= Fib(h)
            && Fib(h - 1) <= WeightOf(w[n2])
            && last <= WeightOf(w[n1]) <= WeightOf(w[n2])
  {
    var h := 1 + Max(HeightOf(w[n1]), HeightOf(w[n2]));
    if h >= 2 {
      assert Fib(h) == Fib(h - 1) + Fib(h - 2);
    } else {
      assert Fib(1) == 2 && Fib(0) == 1;
    }
  }

  lemma Merge(par: seq<int>, w: seq<nat>, alpha: nat, last: nat, total: nat, kids: seq<(nat, nat)>, n1: nat, n2: nat)
    requires Forest(par, w, alpha, last, total, kids) && TwoLightest(par, w, n1, n2) && total < 0x80_0000
    requires 1 + Max(HeightOf(w[n1]), HeightOf(w[n2])) < 256
    ensures Forest(Merged(par, n1, n2), w + [AddWeights(w[n1], w[n2])], alpha, WeightOf(w[n2]), total,
                   kids + [(n1, n2)])
  {
    hide AddWeights, Fib, HeightOf, WeightOf, NodeOk, Parents, Greedy, Linked, RootWeight, TwoLightest, Merged;
    LightestRoots(par, w, n1, n2);
    TwoRoots(par, w, n1, n2);
    MergedNode(par, w, alpha, last, n1, n2, AddWeights(w[n1], w[n2]), n1);
    MergedNodes(par, w, alpha, last, total, kids, n1, n2);
    MergedPairs(par, w, alpha, last, total, kids, n1, n2);
  }

  lemma MergedNodes(par: seq<int>, w: seq<nat>, alpha: nat, last: nat, total: nat, kids: seq<(nat, nat)>, n1: nat,
                    n2: nat)
    requires Forest(par, w, alpha, last, total, kids) && TwoLightest(par, w, n1, n2)
    requires 1 + Max(HeightOf(w[n1]), HeightOf(w[n2])) < 256
    ensures var par1, w1 := Merged(par, n1, n2), w + [AddWeights(w[n1], w[n2])];
            Linked(par1) && |par1| == |w1| && forall k :: 1 <= k < |par1| ==>
              NodeOk(par1, w1, alpha, WeightOf(w[n2]), k)
  {
    hide AddWeights, Fib, HeightOf, WeightOf, NodeOk, Parents, Greedy, Linked, RootWeight;
    var x := AddWeights(w[n1], w[n2]);
    MergedNode(par, w, alpha, last, n1, n2, x, 1);
    forall k | 1 <= k <= |par| ensures NodeOk(Merged(par, n1, n2), w + [x], alpha, WeightOf(w[n2]), k) {
      MergedNode(par, w, alpha, last, n1, n2, x, k);
    }
  }

  lemma MergedPairs(par: seq<int>, w: seq<nat>, alpha: nat, last: nat, total: nat, kids: seq<(nat, nat)>, n1: nat,
                    n2: nat)
    requires Forest(par, w, alpha, last, total, kids) && TwoLightest(par, w, n1, n2)
    requires 1 + Max(HeightOf(w[n1]), HeightOf(w[n2])) < 256
    ensures var par1, w1, kids1 := Merged(par, n1, n2), w + [AddWeights(w[n1], w[n2])], kids + [(n1, n2)];
            forall j :: 0 <= j < |kids1| ==>
              Parents(par1, alpha + 1 + j, kids1[j]) && Greedy(par1, w1, alpha + 1 + j, kids1[j])
  {
    hide AddWeights, Fib, HeightOf, WeightOf, NodeOk, Parents, Greedy, Linked, RootWeight, TwoLightest, Merged;
    LightestRoots(par, w, n1, n2);
    var x, kids1 := AddWeights(w[n1], w[n2]), kids + [(n1, n2)];
    forall j | 0 <= j < |kids1|
      ensures Parents(Merged(par, n1, n2), alpha + 1 + j, kids1[j])
              && Greedy(Merged(par, n1, n2), w + [x], alpha + 1 + j, kids1[j])
    {
      if j < |kids| {
        assert Parents(par, alpha + 1 + j, kids[j]) && Greedy(par, w, alpha + 1 + j, kids[j]);
        ParentsKept(par, alpha + 1 + j, kids[j], n1, n2);
        GreedyKept(par, w, alpha + 1 + j, kids[j], n1, n2, x);
      } else {
        ParentsNew(par, n1, n2);
        GreedyNew(par, w, n1, n2);
      }
    }
  }

  lemma LightestRoots(par: seq<int>, w: seq<nat>, n1: nat, n2: nat)
    requires |par| == |w| && TwoLightest(par, w, n1, n2)
    ensures IsRoot(par, n1) && IsRoot(par, n2) && n1 != n2 && |Merged(par, n1, n2)| == |par| + 1
  {
  }

  lemma ParentsKept(par: seq<int>, t: nat, pair: (nat, nat), n1: nat, n2: nat)
    requires Parents(par, t, pair) && IsRoot(par, n1) && IsRoot(par, n2) && n1 != n2 && t < |par|
    ensures Parents(Merged(par, n1, n2), t, pair)
  {
  }

  lemma ParentsNew(par: seq<int>, n1: nat, n2: nat)
    requires Linked(par) && IsRoot(par, n1) && IsRoot(par, n2) && n1 != n2
    ensures Parents(Merged(par, n1, n2), |par|, (n1, n2))
  {
  }

  /** A later merge changes nothing about an earlier one. */
  lemma GreedyKept(par: seq<int>, w: seq<nat>, t: nat, pair: (nat, nat), n1: nat, n2: nat, x: nat)
    requires Greedy(par, w, t, pair) && IsRoot(par, n1) && IsRoot(par, n2) && n1 != n2
    ensures Greedy(Merged(par, n1, n2), w + [x], t, pair)
  {
    hide WeightOf;
    var par1, w1 := Merged(par, n1, n2), w + [x];
    forall k {:trigger w1[k]} | 1 <= k < t && (par1[k] == -1 || par1[k] >= t) && k != pair.0 && k != pair.1
      ensures w1[pair.1] <= w1[k]
    {
      assert w1[k] == w[k];
      assert par[k] == -1 || par[k] >= t;
    }
  }

  lemma GreedyNew(par: seq<int>, w: seq<nat>, n1: nat, n2: nat)
    requires Linked(par) && |par| == |w| && TwoLightest(par, w, n1, n2)
    requires 1 + Max(HeightOf(w[n1]), HeightOf(w[n2])) < 256
    ensures Greedy(Merged(par, n1, n2), w + [AddWeights(w[n1], w[n2])], |par|, (n1, n2))
  {
    hide WeightOf, HeightOf;
    var par1, w1, t := Merged(par, n1, n2), w + [AddWeights(w[n1], w[n2])], |par|;
    forall k {:trigger w1[k]} | 1 <= k < t && (par1[k] == -1 || par1[k] >= t) && k != n1 && k != n2
      ensures w1[n2] <= w1[k]
    {
      assert w1[k] == w[k] && par1[k] == par[k];
    }
  }

  lemma MergedNode(par: seq<int>, w: seq<nat>, alpha: nat, last: nat, n1: nat, n2: nat, x: nat, k: nat)
    requires 1 <= alpha < |par| == |w| && Linked(par) && TwoLightest(par, w, n1, n2)
    requires forall j :: 1 <= j < |par| ==> NodeOk(par, w, alpha, last, j)
    requires 1 + Max(HeightOf(w[n1]), HeightOf(w[n2])) < 256 && x == AddWeights(w[n1], w[n2])
    requires 1 <= k <= |par|
    ensures Linked(Merged(par, n1, n2))
    ensures NodeOk(Merged(par, n1, n2), w + [x], alpha, WeightOf(w[n2]), k)
  {
    hide AddWeights, Fib;
    assert NodeOk(par, w, alpha, last, n1) && NodeOk(par, w, alpha, last, n2);
    NewNodeHeavy(par, w, alpha, last, n1, n2);
    if k < |par| {
      assert NodeOk(par, w, alpha, last, k);
      if par[k] == -1 && k != n1 && k != n2 { assert w[n2] <= w[k]; }
    }
  }

  // ---- depth ----

  /** Steps from node k up to its root. */
  function Depth(par: seq<int>, k: nat): nat
    requires Linked(par) && 1 <= k < |par|
    decreases |par| - k
  {
    if par[k] < 0 then 0 else 1 + Depth(par, par[k])
  }

  ghost predicate OneRoot(par: seq<int>) {
    |par| > 1 && forall k {:trigger par[k]} :: 1 <= k < |par| ==> (par[k] == -1 <==> k == |par| - 1)
  }

  /** Depth and height together never exceed the height of the root. */
  lemma {:induction false} DepthHeight(par: seq<int>, w: seq<nat>, alpha: nat, last: nat, total: nat,
                                       kids: seq<(nat, nat)>, k: nat)
    requires Forest(par, w, alpha, last, total, kids) && OneRoot(par) && 1 <= k < |par|
    ensures Depth(par, k) + HeightOf(w[k]) <= HeightOf(w[|par| - 1])
    decreases |par| - k
  {
    hide HeightOf, Fib, WeightOf;
    assert NodeOk(par, w, alpha, last, k);
    if par[k] >= 0 { DepthHeight(par, w, alpha, last, total, kids, par[k]); }
  }

  lemma {:induction false} NoRootsBefore(par: seq<int>, w: seq<nat>, n: nat)
    requires |par| == |w| && OneRoot(par) && n < |par| - 1
    ensures RootWeight(par, w, n) == 0
  {
    if n > 0 { NoRootsBefore(par, w, n - 1); }
  }

  /** Every leaf of a finished tree is at most as deep as its total weight allows. */
  lemma LeafDepth(par: seq<int>, w: seq<nat>, alpha: nat, last: nat, total: nat, kids: seq<(nat, nat)>, k: nat)
    requires Forest(par, w, alpha, last, total, kids) && OneRoot(par) && 1 <= k <= alpha
    requires total < 0x80_0000
    ensures Fib(Depth(par, k)) <= total
    ensures Depth(par, k) <= 32
    ensures total < 610 ==> Depth(par, k) <= 12
    ensures alpha >= 2 && |par| > alpha + 1 ==> Depth(par, k) >= 1
  {
    hide Fib, HeightOf, WeightOf;
    var n := |par| - 1;
    DepthHeight(par, w, alpha, last, total, kids, k);
    assert NodeOk(par, w, alpha, last, n);
    if n > 0 { NoRootsBefore(par, w, n - 1); }
    HeightBound(HeightOf(w[n]), WeightOf(w[n]));
    FibMonotone(Depth(par, k), HeightOf(w[n]));
  }

  // ---- the Kraft sum ----

  /** Share of node k in units of 2^-top. */
  ghost function Share(par: seq<int>, top: nat, k: nat): nat
    requires Linked(par) && 1 <= k < |par|
  {
    if Depth(par, k) <= top then Pow2(top - Depth(par, k)) else 0
  }

  /** Shares of the nodes among 1..m whose parent comes after t. */
  ghost function Frontier(par: seq<int>, top: nat, t: nat, m: nat): nat
    requires Linked(par) && m < |par|
  {
    if m == 0 then 0
    else Frontier(par, top, t, m - 1) + (if par[m] == -1 || par[m] > t then Share(par, top, m) else 0)
  }

  /** Shares of the nodes among 1..m whose parent is t. */
  ghost function KidShares(par: seq<int>, top: nat, t: nat, m: nat): nat
    requires Linked(par) && m < |par|
  {
    if m == 0 then 0 else KidShares(par, top, t, m - 1) + (if par[m] == t then Share(par, top, m) else 0)
  }

  lemma {:induction false} FrontierLower(par: seq<int>, top: nat, t: nat, m: nat)
    requires Linked(par) && m < |par| && t > 0
    ensures Frontier(par, top, t - 1, m) == Frontier(par, top, t, m) + KidShares(par, top, t, m)
  {
    if m > 0 { FrontierLower(par, top, t, m - 1); }
  }

  lemma {:induction false} KidSharesSum(par: seq<int>, top: nat, t: nat, m: nat, kids: (nat, nat))
    requires Linked(par) && m < |par| && Parents(par, t, kids)
    ensures KidShares(par, top, t, m) == (if kids.0 <= m then Share(par, top, kids.0) else 0)
                                       + (if kids.1 <= m then Share(par, top, kids.1) else 0)
  {
    hide Share;
    if m > 0 { KidSharesSum(par, top, t, m - 1, kids); }
  }

  /** A node's share is what its two children share. */
  lemma ShareSplit(par: seq<int>, top: nat, t: nat, kids: (nat, nat))
    requires Linked(par) && 1 <= t < |par| && Parents(par, t, kids) && Depth(par, t) < top
    ensures Share(par, top, kids.0) + Share(par, top, kids.1) == Share(par, top, t)
    ensures kids.0 < t && kids.1 < t
  {
    assert Depth(par, kids.0) == 1 + Depth(par, t);
    assert Depth(par, kids.1) == 1 + Depth(par, t);
    assert Pow2(top - Depth(par, t)) == 2 * Pow2(top - Depth(par, t) - 1);
  }

  lemma {:induction false} FrontierOne(par: seq<int>, top: nat, n: nat)
    requires Linked(par) && OneRoot(par) && n < |par| - 1
    ensures Frontier(par, top, |par| - 1, n) == 0
  {
    if n > 0 { FrontierOne(par, top, n - 1); }
  }

  /** The shares of the frontier below any internal node add up to one whole. */
  lemma {:induction false} FrontierWhole(par: seq<int>, w: seq<nat>, alpha: nat, last: nat, total: nat,
                                         kids: seq<(nat, nat)>, top: nat, t: nat)
    requires Forest(par, w, alpha, last, total, kids) && OneRoot(par) && alpha <= t < |par|
    requires HeightOf(w[|par| - 1]) <= top
    ensures Frontier(par, top, t, t) == Pow2(top)
    decreases |par| - t
  {
    hide NodeOk, HeightOf, RootWeight;
    var n := |par| - 1;
    if t == n {
      FrontierOne(par, top, n - 1);
    } else {
      var u := t + 1;
      FrontierWhole(par, w, alpha, last, total, kids, top, u);
      var pair := kids[u - alpha - 1];
      assert Parents(par, u, pair);
      DepthOfInternal(par, w, alpha, last, total, kids, u, pair.0);
      ShareSplit(par, top, u, pair);
      FrontierLower(par, top, u, t);
      KidSharesSum(par, top, u, t, pair);
    }
  }

  lemma DepthOfInternal(par: seq<int>, w: seq<nat>, alpha: nat, last: nat, total: nat, kids: seq<(nat, nat)>, t: nat,
                        k: nat)
    requires Forest(par, w, alpha, last, total, kids) && OneRoot(par) && 1 <= k < |par| && par[k] == t
    ensures 1 <= t < |par| && Depth(par, t) < HeightOf(w[|par| - 1])
  {
    hide Fib, WeightOf;
    assert NodeOk(par, w, alpha, last, k);
    DepthHeight(par, w, alpha, last, total, kids, t);
  }

  /** Sum of 2^(top - len[i]) over the symbols below m. */
  ghost function KraftSum(len: seq<nat>, top: nat, m: nat): nat
    requires m <= |len|
  {
    if m == 0 then 0 else KraftSum(len, top, m - 1) + (if len[m - 1] <= top then Pow2(top - len[m - 1]) else 0)
  }

  lemma {:induction false} KraftIsFrontier(par: seq<int>, alpha: nat, len: seq<nat>, top: nat, m: nat)
    requires Linked(par) && m <= alpha == |len| && alpha < |par|
    requires forall i :: 0 <= i < alpha ==> len[i] == Depth(par, i + 1)
    requires forall k :: 1 <= k <= alpha ==> par[k] == -1 || par[k] > alpha
    ensures KraftSum(len, top, m) == Frontier(par, top, alpha, m)
  {
    hide Depth;
    if m > 0 {
      KraftIsFrontier(par, alpha, len, top, m - 1);
      assert len[m - 1] == Depth(par, m - 1 + 1);
    }
  }
}
