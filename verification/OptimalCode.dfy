/** Why merging the two lightest nodes is best: any lengths that fit a code for the nodes can be made,
    without a greater cost, into lengths for the nodes after the merge. */
module OptimalCode {
  import opened Powers
  import opened Products

  // ---- sums over some of the entries of a sequence ----

  ghost function Total(s: set<nat>, f: seq<nat>, n: nat): nat
    requires n <= |f|
  {
    if n == 0 then 0 else Total(s, f, n - 1) + (if n - 1 in s then f[n - 1] else 0)
  }

  lemma {:induction false} TotalStore(s: set<nat>, f: seq<nat>, i: nat, v: nat, n: nat)
    requires n <= |f| && i < |f|
    ensures Total(s, f[i := v], n) + (if i in s && i < n then f[i] else 0)
            == Total(s, f, n) + (if i in s && i < n then v else 0)
  {
    if n > 0 { TotalStore(s, f, i, v, n - 1); }
  }

  lemma {:induction false} TotalDrop(s: set<nat>, f: seq<nat>, i: nat, n: nat)
    requires n <= |f| && i in s
    ensures Total(s, f, n) == Total(s - {i}, f, n) + (if i < n then f[i] else 0)
  {
    if n > 0 { TotalDrop(s, f, i, n - 1); }
  }

  lemma {:induction false} TotalSame(s: set<nat>, f: seq<nat>, g: seq<nat>, n: nat)
    requires n <= |f| && n <= |g| && forall k: nat :: k in s && k < n ==> f[k] == g[k]
    ensures Total(s, f, n) == Total(s, g, n)
  {
    if n > 0 { TotalSame(s, f, g, n - 1); }
  }

  lemma {:induction false} TotalNone(f: seq<nat>, n: nat)
    requires n <= |f|
    ensures Total({}, f, n) == 0
  {
    if n > 0 { TotalNone(f, n - 1); }
  }

  // ---- lengths and what they cost ----

  /** What every node costs with its length. */
  ghost function Weighted(w: seq<nat>, l: seq<nat>): (c: seq<nat>)
    requires |w| == |l|
    ensures |c| == |l| && forall k :: 0 <= k < |c| ==> c[k] == w[k] * l[k]
  {
    seq(|l|, k requires 0 <= k < |l| => w[k] * l[k])
  }

  ghost function Cost(s: set<nat>, w: seq<nat>, l: seq<nat>): nat
    requires |w| == |l|
  {
    Total(s, Weighted(w, l), |l|)
  }

  /** What every node takes of the whole, in units of 2^-top. */
  ghost function Shares(l: seq<nat>, top: nat): (c: seq<nat>)
    ensures |c| == |l| && forall k :: 0 <= k < |c| ==> c[k] == if l[k] <= top then Pow2(top - l[k]) else 0
  {
    seq(|l|, k requires 0 <= k < |l| => if l[k] <= top then Pow2(top - l[k]) else 0)
  }

  ghost function Kraft(s: set<nat>, l: seq<nat>, top: nat): nat {
    Total(s, Shares(l, top), |l|)
  }

  ghost predicate Short(s: set<nat>, l: seq<nat>, top: nat) {
    forall k: nat :: k in s ==> k < |l| && l[k] <= top
  }

  /** A code with these lengths exists. */
  ghost predicate Feasible(s: set<nat>, l: seq<nat>, top: nat) {
    Short(s, l, top) && Kraft(s, l, top) <= Pow2(top)
  }

  /** No code costs less. */
  ghost predicate AtLeast(s: set<nat>, w: seq<nat>, c: nat) {
    forall l: seq<nat>, top: nat :: |l| == |w| && Feasible(s, l, top) ==> c <= Cost(s, w, l)
  }

  /** One length changed. */
  lemma CostStore(s: set<nat>, w: seq<nat>, l: seq<nat>, i: nat, v: nat)
    requires |w| == |l| && i < |l|
    ensures Cost(s, w, l[i := v]) + (if i in s then w[i] * l[i] else 0) ==
              Cost(s, w, l) + (if i in s then w[i] * v else 0)
  {
    TotalStore(s, Weighted(w, l), i, w[i] * v, |l|);
    assert Weighted(w, l[i := v]) == Weighted(w, l)[i := w[i] * v];
  }

  lemma KraftStore(s: set<nat>, l: seq<nat>, top: nat, i: nat, v: nat)
    requires i in s && i < |l| && l[i] <= top && v <= top
    ensures Kraft(s, l[i := v], top) + Pow2(top - l[i]) == Kraft(s, l, top) + Pow2(top - v)
  {
    hide Pow2;
    TotalStore(s, Shares(l, top), i, Pow2(top - v), |l|);
    assert Shares(l[i := v], top) == Shares(l, top)[i := Pow2(top - v)];
  }

  // ---- the three changes ----

  function Swapped(l: seq<nat>, x: nat, y: nat): seq<nat>
    requires x < |l| && y < |l|
  {
    l[x := l[y]][y := l[x]]
  }

  lemma Crossing(a: nat, b: nat, p: nat, q: nat)
    requires a <= b && p <= q
    ensures a * q + b * p <= a * p + b * q
  {
    TimesUp(a, b, q - p);
    Distribute(q - p, p, a);
    Distribute(q - p, p, b);
  }

  /** A lighter node may have the longer code. */
  lemma SwapKeeps(s: set<nat>, w: seq<nat>, l: seq<nat>, top: nat, x: nat, y: nat)
    requires Feasible(s, l, top) && |w| == |l| && x in s && y in s && x < |l| && y < |l|
    requires w[x] <= w[y] && l[x] <= l[y]
    ensures Feasible(s, Swapped(l, x, y), top) && Cost(s, w, Swapped(l, x, y)) <= Cost(s, w, l)
  {
    hide Kraft, Cost, Pow2;
    var m := l[x := l[y]];
    CostStore(s, w, l, x, l[y]);
    KraftStore(s, l, top, x, l[y]);
    CostStore(s, w, m, y, l[x]);
    KraftStore(s, m, top, y, l[x]);
    if x != y { Crossing(w[x], w[y], l[x], l[y]); } else { assert Swapped(l, x, y) == l; }
  }

  lemma {:induction false} SharesScale(s: set<nat>, l: seq<nat>, low: nat, top: nat, n: nat)
    requires Short(s, l, low) && low <= top && n <= |l|
    ensures Total(s, Shares(l, top), n) == Total(s, Shares(l, low), n) * Pow2(top - low)
  {
    hide Pow2;
    if n > 0 {
      SharesScale(s, l, low, top, n - 1);
      Distribute(Total(s, Shares(l, low), n - 1), if n - 1 in s then Shares(l, low)[n - 1] else 0, Pow2(top - low));
      if n - 1 in s { Pow2Add(low - l[n - 1], top - low); }
    }
  }

  lemma Fewer(a: nat, b: nat, p: nat)
    requires a * p < b * p
    ensures a < b
  {
    if b <= a { TimesUp(b, a, p); }
  }

  /** Where one length exceeds all others, it can be made the greatest of these. */
  lemma LowerKeeps(s: set<nat>, w: seq<nat>, l: seq<nat>, top: nat, a: nat, low: nat)
    requires Feasible(s, l, top) && |w| == |l| && a in s && a < |l| && low <= l[a] && Short(s - {a}, l, low)
    ensures Feasible(s, l[a := low], low) && Cost(s, w, l[a := low]) <= Cost(s, w, l)
  {
    hide Pow2, Cost;
    CostStore(s, w, l, a, low);
    TimesUp(low, l[a], w[a]);
    var rest, m := s - {a}, l[a := low];
    TotalDrop(s, Shares(l, top), a, |l|);
    TotalDrop(s, Shares(m, low), a, |l|);
    TotalSame(rest, Shares(l, low), Shares(m, low), |l|);
    SharesScale(rest, l, low, top, |l|);
    Pow2Add(low, top - low);
    Fewer(Kraft(rest, l, low), Pow2(low), Pow2(top - low));
    assert Pow2(low - low) == 1 by { PowZero(low - low); }
  }

  lemma PowZero(k: nat)
    ensures k == 0 ==> Pow2(k) == 1
  {
  }

  // ---- one merge ----

  ghost function MergedSet(s: set<nat>, a: nat, b: nat, t: nat): set<nat> { s - {a} - {b} + {t} }

  /** Node t in place of a and b, which were one level deeper. */
  lemma TotalMerged(s: set<nat>, f: seq<nat>, a: nat, b: nat, t: nat)
    requires a in s && b in s && a != b && t !in s && a < |f| && b < |f| && t < |f|
    ensures Total(s, f, |f|) + f[t] == Total(MergedSet(s, a, b, t), f, |f|) + f[a] + f[b]
  {
    var r, s1 := s - {a} - {b}, MergedSet(s, a, b, t);
    TotalDrop(s, f, a, |f|);
    TotalDrop(s - {a}, f, b, |f|);
    TotalDrop(s1, f, t, |f|);
    assert s1 - {t} == r;
  }

  /** Merging lowers the cost by the weight of the new node. */
  lemma CostMerged(s: set<nat>, w: seq<nat>, l: seq<nat>, a: nat, b: nat, t: nat)
    requires a in s && b in s && a != b && t !in s && |w| == |l| && a < |l| && b < |l| && t < |l|
    requires w[t] == w[a] + w[b] && l[a] == l[b] == l[t] + 1
    ensures Cost(s, w, l) == Cost(MergedSet(s, a, b, t), w, l) + w[t]
  {
    var f, s1 := Weighted(w, l), MergedSet(s, a, b, t);
    assert Cost(s, w, l) == Total(s, f, |f|) && Cost(s1, w, l) == Total(s1, f, |f|);
    hide *;
    TotalMerged(s, f, a, b, t);
    OneLevel(w[a], w[b], l[t]);
  }

  lemma OneLevel(x: nat, y: nat, n: nat)
    ensures x * (n + 1) + y * (n + 1) == (x + y) * n + (x + y)
  {
    Distribute(x, y, n + 1);
    Distribute(n, 1, x + y);
  }

  lemma KraftMerged(s: set<nat>, l: seq<nat>, top: nat, a: nat, b: nat, t: nat)
    requires a in s && b in s && a != b && t !in s && a < |l| && b < |l| && t < |l|
    requires l[a] == l[b] == l[t] + 1 <= top
    ensures Kraft(s, l, top) == Kraft(MergedSet(s, a, b, t), l, top)
  {
    hide MergedSet;
    TotalMerged(s, Shares(l, top), a, b, t);
    assert Pow2(top - l[t]) == 2 * Pow2(top - l[a]);
  }

  /** A member with the greatest length. */
  lemma {:induction false} Longest(s: set<nat>, l: seq<nat>) returns (x: nat)
    requires s != {} && forall k: nat :: k in s ==> k < |l|
    ensures x in s && forall k: nat :: k in s ==> l[k] <= l[x]
    decreases |s|
  {
    x :| x in s;
    if s != {x} {
      var y := Longest(s - {x}, l);
      if l[y] > l[x] { x := y; }
    }
  }

  /** The two lightest nodes may have the two longest codes, of equal length. */
  lemma Deepen(s: set<nat>, w: seq<nat>, l: seq<nat>, top: nat, a: nat, b: nat) returns (m: seq<nat>, low: nat)
    requires Feasible(s, l, top) && |w| == |l| && a in s && b in s && a != b && a < |w| && b < |w|
    requires forall k: nat :: k in s ==> k < |w| && w[a] <= w[k] && (k != a ==> w[b] <= w[k])
    ensures |m| == |l| && Feasible(s, m, low) && m[a] == m[b] == low > 0 && Cost(s, w, m) <= Cost(s, w, l)
  {
    hide Kraft, Cost, Pow2;
    var x := Longest(s, l);
    SwapKeeps(s, w, l, top, a, x);
    var l1 := Swapped(l, a, x);
    assert b in s - {a};
    var y := Longest(s - {a}, l1);
    low := l1[y];
    LowerKeeps(s, w, l1, top, a, low);
    var l2 := l1[a := low];
    SwapKeeps(s, w, l2, low, b, y);
    m := Swapped(l2, b, y);
    TwoShares(s, m, low, a, b);
    PowZero(low - m[a]);
    PowZero(low);
  }

  lemma TwoShares(s: set<nat>, l: seq<nat>, top: nat, a: nat, b: nat)
    requires a in s && b in s && a != b && a < |l| && b < |l| && l[a] <= top && l[b] <= top
    ensures Kraft(s, l, top) >= Pow2(top - l[a]) + Pow2(top - l[b])
  {
    hide Pow2;
    TotalDrop(s, Shares(l, top), a, |l|);
    TotalDrop(s - {a}, Shares(l, top), b, |l|);
  }

  /** If no code for the merged nodes costs less than c, none for the nodes costs less than c and the
      weight of the new node. */
  lemma MergeBest(s: set<nat>, w: seq<nat>, a: nat, b: nat, t: nat, c: nat)
    requires a in s && b in s && a != b && t !in s && a < |w| && b < |w| && t < |w| && w[t] == w[a] + w[b]
    requires forall k: nat :: k in s ==> k < |w| && w[a] <= w[k] && (k != a ==> w[b] <= w[k])
    requires AtLeast(MergedSet(s, a, b, t), w, c)
    ensures AtLeast(s, w, c + w[t])
  {
    hide Kraft, Cost, Pow2;
    forall l: seq<nat>, top: nat | |l| == |w| && Feasible(s, l, top)
      ensures c + w[t] <= Cost(s, w, l)
    {
      var m, low := Deepen(s, w, l, top, a, b);
      var m1 := m[t := low - 1];
      OutsideStore(s, w, m, low, t, low - 1);
      CostMerged(s, w, m1, a, b, t);
      KraftMerged(s, m1, low, a, b, t);
      assert Feasible(MergedSet(s, a, b, t), m1, low);
    }
  }

  /** A length of a node that is not there does not matter. */
  lemma OutsideStore(s: set<nat>, w: seq<nat>, l: seq<nat>, top: nat, t: nat, v: nat)
    requires t !in s && t < |l| == |w|
    ensures Cost(s, w, l[t := v]) == Cost(s, w, l) && Kraft(s, l[t := v], top) == Kraft(s, l, top)
  {
    hide Pow2;
    TotalSame(s, Weighted(w, l), Weighted(w, l[t := v]), |l|);
    TotalSame(s, Shares(l, top), Shares(l[t := v], top), |l|);
  }

  /** A single node needs no bits. */
  lemma OneNode(w: seq<nat>, l: seq<nat>, k: nat)
    requires |w| == |l| && k < |l|
    ensures Cost({k}, w, l) == w[k] * l[k] && AtLeast({k}, w, 0)
  {
    TotalDrop({k}, Weighted(w, l), k, |l|);
    assert {k} - {k} == {};
    TotalNone(Weighted(w, l), |l|);
  }
}
