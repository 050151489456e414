/** The depths of the leaves of a finished tree are the cheapest code lengths there are. */
module HuffmanBest {
  import opened Powers
  import opened HuffmanForest
  import opened OptimalCode

  // ---- the claim ----

  /** The bits that the first m symbols take together, each as often as f says. */
  ghost function BitsFor(f: seq<nat>, len: seq<nat>, m: nat): nat
    requires m <= |f| && m <= |len|
  {
    if m == 0 then 0 else BitsFor(f, len, m - 1) + f[m - 1] * len[m - 1]
  }

  /** A code with these lengths exists. */
  ghost predicate Fits(len: seq<nat>, top: nat) {
    (forall i :: 0 <= i < |len| ==> len[i] <= top) && KraftSum(len, top, |len|) <= Pow2(top)
  }

  /** There is a code with these lengths, and none takes fewer bits for symbols that occur as often as
      f says. */
  ghost predicate Shortest(f: seq<nat>, len: seq<nat>) {
    && |f| == |len| && (exists top :: Fits(len, top))
    && forall other: seq<nat>, top: nat :: |other| == |f| && Fits(other, top) ==>
         BitsFor(f, len, |f|) <= BitsFor(f, other, |f|)
  }

  // ---- from the root down ----

  /** The nodes up to t that node t does not take in, with t itself: the roots when t had been made. */
  ghost function Tops(par: seq<int>, t: nat): (s: set<nat>)
    ensures forall k: nat :: k in s <==> 1 <= k <= t && k < |par| && (par[k] == -1 || par[k] > t)
  {
    set k: nat | 1 <= k <= t && k < |par| && (par[k] == -1 || par[k] > t) :: k
  }

  ghost function Weights(w: seq<nat>): (ws: seq<nat>)
    ensures |ws| == |w| && forall k :: 0 <= k < |ws| ==> ws[k] == WeightOf(w[k])
  {
    seq(|w|, k requires 0 <= k < |w| => WeightOf(w[k]))
  }

  ghost function Depths(par: seq<int>): (d: seq<nat>)
    requires Linked(par)
    ensures |d| == |par| && forall k :: 1 <= k < |par| ==> d[k] == Depth(par, k)
  {
    seq(|par|, k requires 0 <= k < |par| => if k == 0 then 0 else Depth(par, k))
  }

  /** The weights of the nodes after t together. */
  ghost function Made(ws: seq<nat>, t: nat): nat
    decreases |ws| - t
  {
    if t + 1 >= |ws| then 0 else ws[t + 1] + Made(ws, t + 1)
  }

  /** Making node t took its two children in. */
  lemma TopsMerged(par: seq<int>, t: nat, pair: (nat, nat))
    requires Linked(par) && 1 < t < |par| && Parents(par, t, pair)
    ensures pair.0 in Tops(par, t - 1) && pair.1 in Tops(par, t - 1) && pair.0 != pair.1 && t !in Tops(par, t - 1)
    ensures MergedSet(Tops(par, t - 1), pair.0, pair.1, t) == Tops(par, t)
  {
    assert par[pair.0] == t && par[pair.1] == t;
    assert pair.0 < t && pair.1 < t && (par[t] == -1 || par[t] > t);
    forall k: nat ensures k in MergedSet(Tops(par, t - 1), pair.0, pair.1, t) <==> k in Tops(par, t) {
      if 1 <= k < |par| && par[k] == t { assert k == pair.0 || k == pair.1; }
    }
    assert MergedSet(Tops(par, t - 1), pair.0, pair.1, t) == Tops(par, t);
  }

  lemma LastTop(par: seq<int>)
    requires OneRoot(par) && Linked(par)
    ensures |par| > 1 && Tops(par, |par| - 1) == {|par| - 1}
  {
    var n: nat := |par| - 1;
    var s := Tops(par, n);
    forall k: nat ensures k in s <==> k in {n} {
      if 1 <= k < |par| { assert par[k] == -1 <==> k == n; }
    }
    assert s == {n};
  }

  lemma PairAt(par: seq<int>, w: seq<nat>, alpha: nat, last: nat, total: nat, kids: seq<(nat, nat)>, t: nat)
    returns (pair: (nat, nat))
    requires Forest(par, w, alpha, last, total, kids) && alpha < t < |par|
    ensures Linked(par) && |w| == |par| && Parents(par, t, pair) && Greedy(par, w, t, pair) && t > 1
  {
    pair := kids[t - alpha - 1];
    assert Parents(par, alpha + 1 + (t - alpha - 1), pair) && Greedy(par, w, alpha + 1 + (t - alpha - 1), pair);
  }

  lemma LighterWeights(a: nat, b: nat)
    requires a <= b
    ensures WeightOf(a) <= WeightOf(b)
  {
  }

  lemma LightestPair(par: seq<int>, w: seq<nat>, t: nat, pair: (nat, nat))
    requires Linked(par) && 1 < t < |par| == |w| && Parents(par, t, pair) && Greedy(par, w, t, pair)
    ensures var ws := Weights(w);
            && pair.0 < |ws| && pair.1 < |ws| && ws[t] == ws[pair.0] + ws[pair.1]
            && forall k: nat :: k in Tops(par, t - 1) ==>
                 k < |ws| && ws[pair.0] <= ws[k] && (k != pair.0 ==> ws[pair.1] <= ws[k])
  {
    hide WeightOf;
    var ws := Weights(w);
    LighterWeights(w[pair.0], w[pair.1]);
    forall k: nat | k in Tops(par, t - 1)
      ensures k < |ws| && ws[pair.0] <= ws[k] && (k != pair.0 ==> ws[pair.1] <= ws[k])
    {
      if k != pair.0 && k != pair.1 {
        assert w[pair.1] <= w[k];
        LighterWeights(w[pair.1], w[k]);
      }
    }
  }

  /** No lengths for the roots of any stage cost less than the nodes made after it weigh. */
  lemma {:induction false} Cheapest(par: seq<int>, w: seq<nat>, alpha: nat, last: nat, total: nat,
                                    kids: seq<(nat, nat)>, t: nat)
    requires Forest(par, w, alpha, last, total, kids) && OneRoot(par) && alpha <= t < |par|
    ensures AtLeast(Tops(par, t), Weights(w), Made(Weights(w), t))
    decreases |par| - t
  {
    hide Forest, Parents, Greedy, AtLeast, MergedSet, OneRoot, Linked, WeightOf;
    var ws := Weights(w);
    SameSizes(par, w, alpha, last, total, kids);
    if t + 1 == |par| {
      LastTop(par);
      OneNode(ws, ws, t);
    } else {
      Cheapest(par, w, alpha, last, total, kids, t + 1);
      var pair := PairAt(par, w, alpha, last, total, kids, t + 1);
      TopsMerged(par, t + 1, pair);
      LightestPair(par, w, t + 1, pair);
      MergeBest(Tops(par, t), ws, pair.0, pair.1, t + 1, Made(ws, t + 1));
    }
  }

  lemma SameSizes(par: seq<int>, w: seq<nat>, alpha: nat, last: nat, total: nat, kids: seq<(nat, nat)>)
    requires Forest(par, w, alpha, last, total, kids)
    ensures 1 <= alpha < |par| == |w| && Linked(par)
  {
  }

  lemma ForestSizes(par: seq<int>, w: seq<nat>, alpha: nat, last: nat, total: nat, kids: seq<(nat, nat)>)
    requires Forest(par, w, alpha, last, total, kids)
    ensures 1 <= alpha < |par| == |w| && Linked(par)
    ensures forall k :: 1 <= k <= alpha ==> par[k] == -1 || par[k] > alpha
  {
    forall k | 1 <= k <= alpha ensures par[k] == -1 || par[k] > alpha { assert NodeOk(par, w, alpha, last, k); }
  }

  /** Their depths cost just that. */
  lemma {:induction false} DepthsCost(par: seq<int>, w: seq<nat>, alpha: nat, last: nat, total: nat,
                                      kids: seq<(nat, nat)>, t: nat)
    requires Forest(par, w, alpha, last, total, kids) && OneRoot(par) && alpha <= t < |par|
    ensures Linked(par) && |Weights(w)| == |Depths(par)|
            && Cost(Tops(par, t), Weights(w), Depths(par)) == Made(Weights(w), t)
    decreases |par| - t
  {
    hide Forest, Cost, MergedSet, OneRoot, Parents, Greedy, Linked, Depth, WeightOf;
    ForestSizes(par, w, alpha, last, total, kids);
    var ws, d := Weights(w), Depths(par);
    if t + 1 == |par| {
      LastTop(par);
      RootDepth(par);
      OneNode(ws, d, t);
    } else {
      DepthsCost(par, w, alpha, last, total, kids, t + 1);
      var pair := PairAt(par, w, alpha, last, total, kids, t + 1);
      TopsMerged(par, t + 1, pair);
      PairDepths(par, t + 1, pair);
      LightestPair(par, w, t + 1, pair);
      CostMerged(Tops(par, t), ws, d, pair.0, pair.1, t + 1);
    }
  }

  lemma RootDepth(par: seq<int>)
    requires Linked(par) && OneRoot(par)
    ensures Depth(par, |par| - 1) == 0
  {
  }

  lemma PairDepths(par: seq<int>, t: nat, pair: (nat, nat))
    requires Linked(par) && 1 < t < |par| && Parents(par, t, pair)
    ensures Depth(par, pair.0) == 1 + Depth(par, t) && Depth(par, pair.1) == 1 + Depth(par, t)
  {
  }

  // ---- the leaves ----

  /** Lengths of symbols as lengths of nodes. */
  ghost function OnLeaves(len: seq<nat>, n: nat): (l: seq<nat>)
    requires |len| < n
    ensures |l| == n && forall k :: 1 <= k <= |len| ==> l[k] == len[k - 1]
  {
    [0] + len + seq(n - 1 - |len|, i => 0)
  }

  lemma {:induction false} LeafCost(s: set<nat>, ws: seq<nat>, l: seq<nat>, f: seq<nat>, len: seq<nat>, m: nat)
    requires |ws| == |l| && |f| == |len| < |l| && m < |l|
    requires forall k: nat :: k in s <==> 1 <= k <= |len|
    requires forall k :: 1 <= k <= |len| ==> ws[k] == f[k - 1] && l[k] == len[k - 1]
    ensures Total(s, Weighted(ws, l), m + 1) == BitsFor(f, len, if m <= |len| then m else |len|)
  {
    if m > 0 { LeafCost(s, ws, l, f, len, m - 1); }
  }

  lemma {:induction false} LeafKraft(s: set<nat>, l: seq<nat>, len: seq<nat>, top: nat, m: nat)
    requires |len| < |l| && m < |l|
    requires forall k: nat :: k in s <==> 1 <= k <= |len|
    requires forall k :: 1 <= k <= |len| ==> l[k] == len[k - 1]
    ensures Total(s, Shares(l, top), m + 1) == KraftSum(len, top, if m <= |len| then m else |len|)
  {
    hide Pow2;
    if m > 0 { LeafKraft(s, l, len, top, m - 1); }
  }

  /** Every code for the symbols is one for the leaves, at the same cost. */
  lemma LeavesAre(par: seq<int>, alpha: nat, ws: seq<nat>, l: seq<nat>, f: seq<nat>, len: seq<nat>, top: nat)
    requires 1 <= alpha < |par| == |ws| == |l| && |f| == |len| == alpha
    requires forall k :: 1 <= k <= alpha ==> par[k] == -1 || par[k] > alpha
    requires forall k :: 1 <= k <= alpha ==> ws[k] == f[k - 1] && l[k] == len[k - 1]
    ensures Cost(Tops(par, alpha), ws, l) == BitsFor(f, len, alpha)
    ensures Fits(len, top) ==> Feasible(Tops(par, alpha), l, top)
  {
    var s := Tops(par, alpha);
    LeafCost(s, ws, l, f, len, |l| - 1);
    LeafKraft(s, l, len, top, |l| - 1);
  }

  lemma DepthsFit(par: seq<int>, w: seq<nat>, alpha: nat, last: nat, total: nat, kids: seq<(nat, nat)>,
                  len: seq<nat>)
    requires Forest(par, w, alpha, last, total, kids) && OneRoot(par) && |len| == alpha
    requires forall i :: 0 <= i < alpha ==> len[i] == Depth(par, i + 1)
    ensures exists top :: Fits(len, top)
  {
    ForestSizes(par, w, alpha, last, total, kids);
    hide Depth, KraftSum, HeightOf, WeightOf, Frontier, Pow2, Forest, OneRoot;
    var top := HeightOf(w[|par| - 1]);
    forall i | 0 <= i < alpha ensures len[i] <= top { DepthHeight(par, w, alpha, last, total, kids, i + 1); }
    FrontierWhole(par, w, alpha, last, total, kids, top, alpha);
    KraftIsFrontier(par, alpha, len, top, alpha);
    assert Fits(len, top);
  }

  /** So they are the shortest code. */
  lemma DepthsAreShortest(par: seq<int>, w: seq<nat>, alpha: nat, last: nat, total: nat, kids: seq<(nat, nat)>,
                          f: seq<nat>, len: seq<nat>)
    requires Forest(par, w, alpha, last, total, kids) && OneRoot(par) && |f| == |len| == alpha
    requires forall i :: 0 <= i < alpha ==> f[i] == WeightOf(w[i + 1]) && len[i] == Depth(par, i + 1)
    ensures Shortest(f, len)
  {
    DepthsFit(par, w, alpha, last, total, kids, len);
    ForestSizes(par, w, alpha, last, total, kids);
    var ws, d := Weights(w), Depths(par);
    Cheapest(par, w, alpha, last, total, kids, alpha);
    DepthsCost(par, w, alpha, last, total, kids, alpha);
    hide Forest, Cost, Feasible, Fits, Depth, WeightOf, BitsFor;
    LeavesAre(par, alpha, ws, d, f, len, 0);
    forall other: seq<nat>, top: nat | |other| == |f| && Fits(other, top)
      ensures BitsFor(f, len, |f|) <= BitsFor(f, other, |f|)
    {
      LeavesAre(par, alpha, ws, OnLeaves(other, |par|), f, other, top);
      assert Feasible(Tops(par, alpha), OnLeaves(other, |par|), top);
    }
  }
}
