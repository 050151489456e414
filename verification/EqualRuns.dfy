/** A sorted sequence in which every value comes equally often: equal entries stand together in
    runs of that length, one after another. */
module EqualRuns {
  import opened Permutations
  import opened Products
  import LowBits

  function Count(e: seq<nat>, v: nat): nat {
    if e == [] then 0 else Count(e[..|e| - 1], v) + if e[|e| - 1] == v then 1 else 0
  }

  ghost predicate Ascending(e: seq<nat>) {
    forall i, j :: 0 <= i < j < |e| ==> e[i] <= e[j]
  }

  lemma {:induction false} CountNone(e: seq<nat>, v: nat)
    requires forall j :: 0 <= j < |e| ==> e[j] != v
    ensures Count(e, v) == 0
  {
    if e != [] { CountNone(e[..|e| - 1], v); }
  }

  /** What is cut off at the end does not matter to a value that is not there. */
  lemma {:induction false} CountCut(e: seq<nat>, n: nat, v: nat)
    requires n <= |e| && forall j :: n <= j < |e| ==> e[j] != v
    ensures Count(e[..n], v) == Count(e, v)
    decreases |e|
  {
    if n < |e| {
      CountCut(e[..|e| - 1], n, v);
      assert e[..|e| - 1][..n] == e[..n];
    } else {
      assert e[..n] == e;
    }
  }

  /** The entries of the greatest value are the last. */
  lemma {:induction false} TopRun(e: seq<nat>, v: nat)
    requires Ascending(e) && forall j :: 0 <= j < |e| ==> e[j] <= v
    ensures Count(e, v) <= |e|
    ensures forall j :: 0 <= j < |e| ==> (e[j] == v <==> j >= |e| - Count(e, v))
  {
    if e != [] {
      var t := e[..|e| - 1];
      if e[|e| - 1] == v {
        TopRun(t, v);
        assert forall j :: 0 <= j < |t| ==> t[j] == e[j];
      } else {
        CountNone(e, v);
      }
    }
  }

  /** Equal entries are those in the same stretch of m. */
  ghost predicate InRuns(e: seq<nat>, m: nat)
    requires m > 0
  {
    forall i, j :: 0 <= i < |e| && 0 <= j < |e| ==> (e[i] == e[j] <==> i / m == j / m)
  }

  lemma InStretch(k: nat, m: nat, i: nat)
    requires m > 0
    ensures k * m <= i < k * m + m ==> i / m == k
    ensures i < k * m ==> i / m < k
  {
    if k * m <= i < k * m + m {
      LowBits.Unique(i, m, k, i - k * m);
      assert LowBits.Quotient(i, m) == i / m;
    }
    assert i == (i / m) * m + i % m;
    if k <= i / m { TimesUp(k, i / m, m); }
  }

  lemma {:induction false} Runs(e: seq<nat>, m: nat) returns (k: nat)
    requires m > 0 && Ascending(e) && forall j :: 0 <= j < |e| ==> Count(e, e[j]) == m
    ensures |e| == k * m && InRuns(e, m)
    decreases |e|
  {
    k := 0;
    if e != [] {
      var v := e[|e| - 1];
      TopRun(e, v);
      var n := |e| - m;
      var t := e[..n];
      forall j | 0 <= j < |t| ensures Count(t, t[j]) == m {
        assert t[j] == e[j] && e[j] != v;
        CountCut(e, n, e[j]);
      }
      k := Runs(t, m);
      LastRun(e, m, k);
      assert (k + 1) * m == k * m + m;
      k := k + 1;
    }
  }

  lemma LastRun(e: seq<nat>, m: nat, k: nat)
    requires m > 0 && |e| == k * m + m && InRuns(e[..k * m], m)
    requires forall j :: 0 <= j < |e| ==> (e[j] == e[|e| - 1] <==> j >= k * m)
    ensures InRuns(e, m)
  {
    var n := k * m;
    var t := e[..n];
    forall i, j | 0 <= i < |e| && 0 <= j < |e| ensures e[i] == e[j] <==> i / m == j / m {
      InStretch(k, m, i);
      InStretch(k, m, j);
      if i < n && j < n { assert t[i] == e[i] && t[j] == e[j]; }
    }
  }

  // ---- counting by another name ----

  ghost function Places(e: seq<nat>, v: nat): (s: set<nat>) {
    set j: nat | j < |e| && e[j] == v
  }

  lemma {:induction false} CountIsSize(e: seq<nat>, v: nat)
    ensures |Places(e, v)| == Count(e, v)
  {
    if e == [] {
      assert Places(e, v) == {};
    } else {
      var n := |e| - 1;
      CountIsSize(e[..n], v);
      if e[n] == v {
        assert Places(e, v) == Places(e[..n], v) + {n};
      } else {
        assert Places(e, v) == Places(e[..n], v);
      }
    }
  }

  ghost function Image(s: set<nat>, h: seq<nat>): set<nat>
    requires forall i :: i in s ==> i < |h|
  {
    set i | i in s :: h[i]
  }

  lemma {:induction false} ImageSize(s: set<nat>, h: seq<nat>)
    requires forall i :: i in s ==> i < |h|
    requires forall i, j :: i in s && j in s && i != j ==> h[i] != h[j]
    ensures |Image(s, h)| == |s|
  {
    if s == {} {
      assert Image(s, h) == {};
    } else {
      var i :| i in s;
      ImageSize(s - {i}, h);
      assert Image(s, h) == Image(s - {i}, h) + {h[i]};
    }
  }

  ghost predicate HasName(e: seq<nat>, v: nat, h: seq<nat>, k: nat)
    requires |h| == |e|
  {
    exists i :: 0 <= i < |e| && e[i] == v && h[i] == k
  }

  /** A value has m entries when names tell them apart and are the numbers below m. */
  lemma CountByName(e: seq<nat>, v: nat, h: seq<nat>, m: nat)
    requires |h| == |e|
    requires forall i, j :: 0 <= i < j < |e| && e[i] == v == e[j] ==> h[i] != h[j]
    requires forall i :: 0 <= i < |e| && e[i] == v ==> h[i] < m
    requires forall k: nat :: k < m ==> HasName(e, v, h, k)
    ensures Count(e, v) == m
  {
    var s := Places(e, v);
    CountIsSize(e, v);
    ImageSize(s, h);
    forall k: nat ensures k in Image(s, h) <==> k in Below(m) {
      if k < m {
        assert HasName(e, v, h, k);
        var i :| 0 <= i < |e| && e[i] == v && h[i] == k;
        assert i in s;
      }
    }
    assert Image(s, h) == Below(m);
    BelowSize(m);
  }
}
